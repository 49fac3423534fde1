/**
 * The semester-5 elective cleanup run: for every student document, look up the
 * student's semester-5 record, apply the elective rule to its subject list, write
 * the list back when it got shorter, and count the students fixed.
 */
module ElectiveCleanup {
  import opened Wrappers
  import opened ElectiveRule

  /** The semester whose records the cleanup touches. */
  const SemId: string := "5"

  /** Address of a semester document: student roll number and semester id. */
  datatype SemKey = SemKey(roll: string, sem: string)

  /**
   * A semester document. `subjects` is `None` when the document has no
   * `subjects` field; every other field is carried in `other`.
   */
  datatype SemRecord = SemRecord(subjects: Option<seq<Subject>>, other: map<string, string>)

  /** The address of a student's semester-5 document. */
  function Sem5Key(roll: string): SemKey
  {
    SemKey(roll, SemId)
  }

  /** The subject list as read by `data.get('subjects', [])`. */
  function SubjectsOf(rec: SemRecord): seq<Subject>
  {
    rec.subjects.GetOr([])
  }

  /**
   * The record is fixed (written back and counted): the guard holds and the
   * filtered list is strictly shorter than the stored one.
   */
  predicate NeedsFix(rec: SemRecord)
  {
    var subjects := SubjectsOf(rec);
    HasBothElectives(subjects) && |DropInjectedNlp(subjects)| < |subjects|
  }

  /** The record after the rule: the `subjects` field is replaced only when the record needs a fix. */
  function Fixed(rec: SemRecord): (r: SemRecord)
    ensures r.other == rec.other
    ensures !HasBothElectives(SubjectsOf(rec)) ==> r == rec
    ensures HasBothElectives(SubjectsOf(rec)) ==> SubjectsOf(r) == DropInjectedNlp(SubjectsOf(rec))
    ensures r != rec <==> NeedsFix(rec)
  {
    DropShortensIff(SubjectsOf(rec));
    if NeedsFix(rec) then rec.(subjects := Some(DropInjectedNlp(SubjectsOf(rec)))) else rec
  }

  /** A record needs a fix iff it holds the IRS elective and at least one NLP entry graded 'F'. */
  lemma NeedsFixIff(rec: SemRecord)
    ensures NeedsFix(rec) <==>
      var s := SubjectsOf(rec);
      HasCode(s, IrsCode) && exists j :: 0 <= j < |s| && IsInjectedNlp(s[j])
  {
    var s := SubjectsOf(rec);
    DropShortensIff(s);
    if exists j :: 0 <= j < |s| && IsInjectedNlp(s[j]) {
      var j :| 0 <= j < |s| && IsInjectedNlp(s[j]);
      assert s[j].code == Some(NlpCode);
    }
  }

  /**
   * In a record holding the IRS elective, the rule leaves no NLP entry graded 'F'
   * and keeps the IRS entry.
   */
  lemma FixedRemovesInjected(rec: SemRecord)
    requires HasCode(SubjectsOf(rec), IrsCode)
    ensures var s := SubjectsOf(Fixed(rec));
      HasCode(s, IrsCode) && forall j :: 0 <= j < |s| ==> !IsInjectedNlp(s[j])
  {
    var s := SubjectsOf(rec);
    if HasCode(s, NlpCode) {
      KeepsCode(s, IrsCode);
    } else {
      assert forall j :: 0 <= j < |s| ==> !IsInjectedNlp(s[j]);
    }
  }

  /** Applying the rule twice is applying it once, and a fixed record never needs another fix. */
  lemma FixedIdempotent(rec: SemRecord)
    ensures !NeedsFix(Fixed(rec))
    ensures Fixed(Fixed(rec)) == Fixed(rec)
  {
    if NeedsFix(rec) {
      var s := DropInjectedNlp(SubjectsOf(rec));
      assert SubjectsOf(Fixed(rec)) == s;
      DropShortensIff(s);
    }
  }

  /**
   * The store after every student of `ids` has been processed: a semester-5 record
   * of a listed student is `Fixed`, every other record is as it was. Repeated ids
   * do no harm because `Fixed` is idempotent.
   */
  function CleanedStore(records: map<SemKey, SemRecord>, ids: seq<string>): (r: map<SemKey, SemRecord>)
  {
    map k | k in records :: if k.sem == SemId && k.roll in ids then Fixed(records[k]) else records[k]
  }

  /** The students of `ids` whose semester-5 record exists and needs a fix. */
  function FixedStudents(records: map<SemKey, SemRecord>, ids: seq<string>): (r: set<string>)
  {
    set id | id in ids && Sem5Key(id) in records && NeedsFix(records[Sem5Key(id)])
  }

  /** Processing one more student applies `Fixed` to that student's semester-5 record, if any. */
  lemma CleanedStoreStep(records: map<SemKey, SemRecord>, ids: seq<string>, id: string)
    ensures var cur, k := CleanedStore(records, ids), Sem5Key(id);
      CleanedStore(records, ids + [id]) == if k in cur then cur[k := Fixed(cur[k])] else cur
  {
    var cur, k := CleanedStore(records, ids), Sem5Key(id);
    var next := CleanedStore(records, ids + [id]);
    if k in cur {
      FixedIdempotent(records[k]);
      forall k' | k' in records ensures next[k'] == cur[k := Fixed(cur[k])][k'] {
        if k' != k && k'.sem == SemId {
          assert k'.roll != id;
          assert k'.roll in ids + [id] <==> k'.roll in ids;
        }
      }
      assert next == cur[k := Fixed(cur[k])];
    } else {
      forall k' | k' in records ensures next[k'] == cur[k'] {
        if k'.sem == SemId {
          assert k'.roll != id;
          assert k'.roll in ids + [id] <==> k'.roll in ids;
        }
      }
      assert next == cur;
    }
  }

  /** Processing one more student counts it iff its current semester-5 record needs a fix. */
  lemma FixedStudentsStep(records: map<SemKey, SemRecord>, ids: seq<string>, id: string)
    ensures var cur, k := CleanedStore(records, ids), Sem5Key(id);
      |FixedStudents(records, ids + [id])| ==
        |FixedStudents(records, ids)| + if k in cur && NeedsFix(cur[k]) then 1 else 0
  {
    var cur, k := CleanedStore(records, ids), Sem5Key(id);
    var before, after := FixedStudents(records, ids), FixedStudents(records, ids + [id]);
    if k in records && NeedsFix(records[k]) {
      assert after == before + {id};
      if id in ids {
        FixedIdempotent(records[k]);
        assert after == before;
      } else {
        assert id !in before;
      }
    } else {
      assert after == before;
      if k in records {
        if id in ids {
          FixedIdempotent(records[k]);
        }
      }
    }
  }

  /** At most one student is counted per student processed. */
  lemma {:induction false} FixedStudentsBound(records: map<SemKey, SemRecord>, ids: seq<string>)
    ensures |FixedStudents(records, ids)| <= |ids|
  {
    if ids == [] {
      assert FixedStudents(records, ids) == {};
    } else {
      var init := ids[..|ids| - 1];
      assert ids == init + [ids[|ids| - 1]];
      FixedStudentsBound(records, init);
      FixedStudentsStep(records, init, ids[|ids| - 1]);
    }
  }

  /**
   * A run creates and deletes no record, and changes a record exactly when it is
   * the semester-5 record of a counted student; students without a semester-5
   * record are never counted.
   */
  lemma CleanupChangesExactlyFixed(records: map<SemKey, SemRecord>, ids: seq<string>)
    ensures CleanedStore(records, ids).Keys == records.Keys
    ensures forall id :: id in FixedStudents(records, ids) ==> id in ids && Sem5Key(id) in records
    ensures forall k :: k in records ==>
      (CleanedStore(records, ids)[k] != records[k] <==> k.sem == SemId && k.roll in FixedStudents(records, ids))
  {
  }

  /** A second run over the same students changes nothing and counts nobody. */
  lemma CleanupIdempotent(records: map<SemKey, SemRecord>, ids: seq<string>)
    ensures CleanedStore(CleanedStore(records, ids), ids) == CleanedStore(records, ids)
    ensures FixedStudents(CleanedStore(records, ids), ids) == {}
  {
    var once := CleanedStore(records, ids);
    forall k | k in records && k.sem == SemId && k.roll in ids
      ensures Fixed(once[k]) == once[k] && !NeedsFix(once[k])
    {
      FixedIdempotent(records[k]);
    }
    forall id | id in ids && Sem5Key(id) in once
      ensures !NeedsFix(once[Sem5Key(id)])
    {
      FixedIdempotent(records[Sem5Key(id)]);
    }
  }

  /** The semester documents of the database, keyed by student and semester. */
  class SemesterStore {
    var records: map<SemKey, SemRecord>

    constructor (records: map<SemKey, SemRecord>)
      ensures this.records == records
    {
      this.records := records;
    }

    /** Sets the `subjects` field of an existing document, leaving its other fields and all other documents alone. */
    method UpdateSubjects(key: SemKey, subjects: seq<Subject>)
      requires key in records
      modifies this
      ensures records == old(records)[key := old(records)[key].(subjects := Some(subjects))]
    {
      records := records[key := records[key].(subjects := Some(subjects))];
    }
  }

  /**
   * The cleanup run over the student documents `students`, in stream order.
   * Afterwards the store is the reference `CleanedStore` of the old one, and the
   * count is the number of distinct students whose record was rewritten.
   */
  method FixSem5Electives(store: SemesterStore, students: seq<string>) returns (fixCount: nat)
    modifies store
    ensures store.records == CleanedStore(old(store.records), students)
    ensures fixCount == |FixedStudents(old(store.records), students)|
    ensures fixCount <= |students|
  {
    ghost var initial := store.records;
    fixCount := 0;
    assert students[..0] == [];
    for i := 0 to |students|
      invariant store.records == CleanedStore(initial, students[..i])
      invariant fixCount == |FixedStudents(initial, students[..i])|
    {
      var htNumber := students[i];
      var key := Sem5Key(htNumber);
      assert students[..i + 1] == students[..i] + [htNumber];
      CleanedStoreStep(initial, students[..i], htNumber);
      FixedStudentsStep(initial, students[..i], htNumber);
      if key !in store.records {
        continue;
      }
      var doc := store.records[key];
      var subjects := SubjectsOf(doc);
      var hasIrs := HasCode(subjects, IrsCode);
      var hasNlp := HasCode(subjects, NlpCode);
      if hasIrs && hasNlp {
        var newSubjects := DropInjectedNlp(subjects);
        if |newSubjects| < |subjects| {
          store.UpdateSubjects(key, newSubjects);
          fixCount := fixCount + 1;
        }
      }
    }
    assert students[..|students|] == students;
    FixedStudentsBound(initial, students);
  }
}
