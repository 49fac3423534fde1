# Semester-5 elective cleanup, modelled in Dafny

The result-lookup system stores, for every student (keyed by hall-ticket roll
number), one document per semester holding an ordered list of subject entries.
A maintenance script, `fix_sem5_electives`, repairs semester-5 records in which
an NLP elective (`22CS29`) graded `F` was injected next to the IRS elective
(`22CS27`) that the student actually took. For each student document it:

1. reads the student's semester-5 document and skips the student when there is none;
2. reads its `subjects` list, or an empty list when the field is missing;
3. when the list holds both an IRS entry and an NLP entry, drops every NLP entry graded `F`;
4. writes the list back and counts the student only when the list got shorter.

This project models that script.

- `wrappers.dfy` (module `Wrappers`): `Option`, used for absent fields.
- `electives.dfy` (module `ElectiveRule`): the subject entry, the guard and the
  filter as pure functions, with lemmas saying which entries survive.
- `cleanup.dfy` (module `ElectiveCleanup`): the semester document and the per-record fix.
  The document database becomes a `SemesterStore` object whose `records` map is updated
  in place. The driver `FixSem5Electives` loops over the student ids and returns the fix count.
  Its result is tied to a closed-form reference: `CleanedStore` gives the final store and
  `FixedStudents` gives the set of students counted.
  Lemmas about that reference state what a run changes and that a run is idempotent.

The list of student document ids, which the database streams, is a
parameter `students`. Nothing requires it to be duplicate-free: a repeated id
finds the record already fixed and is not counted again.

## Model

| member | source | states |
|---|---|---|
| `ElectiveRule.HasCode` | cleanup.py:33-34 | definition: some entry of the list has the given code, the `any(...)` tests for the IRS and NLP codes |
| `ElectiveRule.HasBothElectives` | cleanup.py:36 | definition: the guard, the list holds an IRS entry and an NLP entry |
| `ElectiveRule.IsInjectedNlp` | cleanup.py:39 | definition: the comprehension's removal condition, code `22CS29` and grade `F` |
| `ElectiveRule.DropInjectedNlp` | cleanup.py:39 | the filtered list is no longer than the input; an entry is in the result iff it is in the input and is not an NLP entry graded `F`; no entry of the result is an NLP entry graded `F` |
| `ElectiveRule.KeptPositions` | cleanup.py:39 | the positions a filter must keep: strictly increasing and in range, and a position is listed iff its entry is not an NLP entry graded `F` |
| `ElectiveRule.DropSelectsKeptPositions` | cleanup.py:39 | filtering a suffix of the list gives that suffix read at exactly the kept positions, in order |
| `ElectiveRule.DropIsOrderedSelection` | cleanup.py:39 | the filter is an order-preserving subsequence: the result is the input read at strictly increasing positions, and exactly the NLP-`F` entries are left out (NLP entries with other grades and all IRS entries stay) |
| `ElectiveRule.DropShortensIff` | cleanup.py:39-41 | the filtered list is strictly shorter iff the input holds an NLP entry graded `F`; without one the filter returns the input unchanged |
| `ElectiveRule.KeepsCode` | cleanup.py:33-39 | every entry whose code is not `22CS29`, in particular every IRS entry, is still in the filtered list, so such a code present before is present after |
| `ElectiveCleanup.Sem5Key` | cleanup.py:16-23 | definition: the address of a student's semester-5 document, roll number and semester `5` |
| `ElectiveCleanup.SubjectsOf` | cleanup.py:30 | definition: the stored subject list, or the empty list when the field is absent |
| `ElectiveCleanup.NeedsFix` | cleanup.py:36-41 | definition: the record is written back and counted, the guard holds and the filtered list is strictly shorter |
| `ElectiveCleanup.Fixed` | cleanup.py:29-43 | only the `subjects` field can change; without both electives the record is unchanged; with both, its subject list is the filtered list; the record changes iff it needs a fix (guard holds and the list gets shorter) |
| `ElectiveCleanup.NeedsFixIff` | cleanup.py:33-41 | a record is rewritten and counted iff its list holds an IRS entry and at least one NLP entry graded `F` |
| `ElectiveCleanup.FixedRemovesInjected` | cleanup.py:33-39 | after the rule, a list that held the IRS elective has no NLP entry graded `F` left and still holds the IRS elective |
| `ElectiveCleanup.FixedIdempotent` | cleanup.py:33-43 | applying the rule to its own result changes nothing, and a fixed record never needs another fix |
| `ElectiveCleanup.CleanedStore` | cleanup.py:21-43 | definition: the store after a run, each semester-5 record of a listed student replaced by `Fixed` of it, every other record as it was |
| `ElectiveCleanup.FixedStudents` | cleanup.py:21-43 | definition: the listed students whose semester-5 record exists and needs a fix |
| `ElectiveCleanup.CleanedStoreStep` | cleanup.py:21-43 | processing one more student applies the rule to that student's semester-5 record if one exists, and changes no other record |
| `ElectiveCleanup.FixedStudentsStep` | cleanup.py:21-43 | processing one more student adds one to the count iff that student's current semester-5 record needs a fix |
| `ElectiveCleanup.FixedStudentsBound` | cleanup.py:19-43 | the number of students counted is at most the number of student ids processed |
| `ElectiveCleanup.CleanupChangesExactlyFixed` | cleanup.py:23-43 | a run creates and deletes no document; a document changes iff it is the semester-5 document of a counted student; only listed students with a semester-5 document can be counted |
| `ElectiveCleanup.CleanupIdempotent` | cleanup.py:21-43 | running the cleanup a second time over the same students leaves the store as it is and counts nobody |
| `ElectiveCleanup.SemesterStore.constructor` | cleanup.py:8 | the in-memory store starts with the given documents |
| `ElectiveCleanup.SemesterStore.UpdateSubjects` | cleanup.py:42 | `update({"subjects": ...})` on an existing document sets that field and leaves its other fields and every other document unchanged |
| `ElectiveCleanup.FixSem5Electives` | cleanup.py:10-46 | after the loop the store equals `CleanedStore` of the old store; the returned count is the number of distinct students whose semester-5 record needed a fix, and is at most the number of students streamed |

## Left out

- The Firebase setup, the `students` stream, document `get()`/`update()` calls and their failures (cleanup.py:1-8, 18, 23, 25, 42): the stream is the parameter `students`, and the database is the in-memory `SemesterStore`.
- Progress and summary output (cleanup.py:11, 44, 46): console printing only.
- Concurrent writers to the database during a run: the model assumes the script is the only writer.
- Malformed documents that make the Python script raise: a `subjects` field that is present but not a list, or a list entry that is not a dictionary. The model only has lists of entries and an absent field.
- The value types of entry fields. `code` and `grade` are absent or strings. A stored non-string value compares unequal to the codes, which is what `None` does here. Other fields are kept as opaque `other` maps that the rule never reads.
- `index.js`: HTTP routing, uppercasing of roll numbers, copying of stored documents under `sem_<id>` keys, and status-code mapping, including the 404 for a missing student profile (index.js:26-28). All of it is request plumbing with no computation on grades.
- `script.js`: browser rendering, `fetch` calls, sorting of semester keys and the display of grade points of 0 as `F`. Presentation only.
