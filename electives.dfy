/**
 * The semester-5 professional-elective rule: a student whose semester-5 subject
 * list holds both the IRS elective and the NLP elective took IRS, so every NLP
 * entry graded 'F' is a spurious (injected) entry and is dropped.
 */
module ElectiveRule {
  import opened Wrappers

  /** Subject code of the IRS elective. */
  const IrsCode: string := "22CS27"
  /** Subject code of the NLP elective. */
  const NlpCode: string := "22CS29"
  /** The failing grade that marks an injected NLP entry. */
  const FailGrade: string := "F"

  /**
   * One entry of a semester's `subjects` list. `code` and `grade` are the two
   * keys the rule reads; either may be absent. Every other key of the entry
   * (name, credits, grade points, ...) is carried in `other` and never read.
   */
  datatype Subject = Subject(code: Option<string>, grade: Option<string>, other: map<string, string>)

  /** Some entry of `subjects` has the given code (the `any(...)` tests). */
  predicate HasCode(subjects: seq<Subject>, code: string)
  {
    exists i :: 0 <= i < |subjects| && subjects[i].code == Some(code)
  }

  /** Both electives appear in the list: the guard `has_irs and has_nlp`. */
  predicate HasBothElectives(subjects: seq<Subject>)
  {
    HasCode(subjects, IrsCode) && HasCode(subjects, NlpCode)
  }

  /** An NLP entry graded 'F': the entries the rule removes. */
  predicate IsInjectedNlp(s: Subject)
  {
    s.code == Some(NlpCode) && s.grade == Some(FailGrade)
  }

  /**
   * The list comprehension that keeps every entry that is not an injected NLP
   * entry, in the original order.
   */
  function DropInjectedNlp(subjects: seq<Subject>): (r: seq<Subject>)
    ensures |r| <= |subjects|
    ensures forall x :: x in r <==> x in subjects && !IsInjectedNlp(x)
    ensures forall i :: 0 <= i < |r| ==> !IsInjectedNlp(r[i])
  {
    if subjects == [] then []
    else if IsInjectedNlp(subjects[0]) then DropInjectedNlp(subjects[1..])
    else [subjects[0]] + DropInjectedNlp(subjects[1..])
  }

  /**
   * The positions `lo <= j < |s|` whose entries the rule keeps, in increasing
   * order: an independent description of which entries survive.
   */
  ghost function KeptPositions(s: seq<Subject>, lo: nat): (idx: seq<nat>)
    requires lo <= |s|
    decreases |s| - lo
    ensures forall i :: 0 <= i < |idx| ==> lo <= idx[i] < |s|
    ensures forall i, j :: 0 <= i < j < |idx| ==> idx[i] < idx[j]
    ensures forall j :: lo <= j < |s| ==> (j in idx <==> !IsInjectedNlp(s[j]))
  {
    if lo == |s| then []
    else if IsInjectedNlp(s[lo]) then KeptPositions(s, lo + 1)
    else [lo] + KeptPositions(s, lo + 1)
  }

  /**
   * The filtered list of the suffix `s[lo..]` is the suffix taken at exactly the
   * kept positions, in order.
   */
  lemma {:induction false} DropSelectsKeptPositions(s: seq<Subject>, lo: nat)
    requires lo <= |s|
    decreases |s| - lo
    ensures |DropInjectedNlp(s[lo..])| == |KeptPositions(s, lo)|
    ensures forall i :: 0 <= i < |KeptPositions(s, lo)| ==>
              DropInjectedNlp(s[lo..])[i] == s[KeptPositions(s, lo)[i]]
  {
    if lo < |s| {
      DropSelectsKeptPositions(s, lo + 1);
      var t, rest := s[lo..], KeptPositions(s, lo + 1);
      assert t[1..] == s[lo + 1..];
      var tail := DropInjectedNlp(s[lo + 1..]);
      if IsInjectedNlp(s[lo]) {
        assert DropInjectedNlp(t) == tail;
      } else {
        assert DropInjectedNlp(t) == [s[lo]] + tail;
        assert KeptPositions(s, lo) == [lo] + rest;
        forall i | 0 <= i < |KeptPositions(s, lo)|
          ensures DropInjectedNlp(t)[i] == s[KeptPositions(s, lo)[i]]
        {
          if i > 0 {
            assert DropInjectedNlp(t)[i] == tail[i - 1];
            assert KeptPositions(s, lo)[i] == rest[i - 1];
          }
        }
      }
    }
  }

  /**
   * The rule's filter is an order-preserving selection: the result is `s` read
   * at a strictly increasing sequence of positions, and a position is read
   * exactly when its entry is not an NLP entry graded 'F'. So an entry is
   * removed iff its code is 22CS29 and its grade is 'F'.
   */
  lemma DropIsOrderedSelection(s: seq<Subject>)
    ensures var idx, r := KeptPositions(s, 0), DropInjectedNlp(s);
      && |r| == |idx|
      && (forall i, j :: 0 <= i < j < |idx| ==> idx[i] < idx[j])
      && (forall i :: 0 <= i < |idx| ==> idx[i] < |s| && r[i] == s[idx[i]])
      && (forall j :: 0 <= j < |s| ==> (j in idx <==> !IsInjectedNlp(s[j])))
  {
    DropSelectsKeptPositions(s, 0);
    assert s[0..] == s;
  }

  /** The filter shortens the list iff the list holds an injected NLP entry; otherwise it is the identity. */
  lemma {:induction false} DropShortensIff(s: seq<Subject>)
    ensures |DropInjectedNlp(s)| < |s| <==> exists j :: 0 <= j < |s| && IsInjectedNlp(s[j])
    ensures (forall j :: 0 <= j < |s| ==> !IsInjectedNlp(s[j])) ==> DropInjectedNlp(s) == s
  {
    if s != [] {
      DropShortensIff(s[1..]);
      if !IsInjectedNlp(s[0]) && (exists j :: 0 <= j < |s[1..]| && IsInjectedNlp(s[1..][j])) {
        var j :| 0 <= j < |s[1..]| && IsInjectedNlp(s[1..][j]);
        assert IsInjectedNlp(s[j + 1]);
      }
      if exists j :: 0 <= j < |s| && IsInjectedNlp(s[j]) {
        var j :| 0 <= j < |s| && IsInjectedNlp(s[j]);
        if j > 0 {
          assert IsInjectedNlp(s[1..][j - 1]);
        }
      }
    }
  }

  /**
   * Every entry whose code is not the NLP code, in particular every IRS entry,
   * survives the filter; so a code other than NLP present before is present after.
   */
  lemma KeepsCode(s: seq<Subject>, code: string)
    requires code != NlpCode
    ensures forall i :: 0 <= i < |s| && s[i].code == Some(code) ==> s[i] in DropInjectedNlp(s)
    ensures HasCode(s, code) ==> HasCode(DropInjectedNlp(s), code)
  {
  }
}
