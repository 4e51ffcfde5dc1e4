/**
 * The list of enrolled students a course carries
 * (src/course/course-contract.ts, enrollStudent and disenrollStudent):
 * membership, position lookup, appending and removal of one student.
 */
module Roster {
  import opened Wrappers

  predicate NoDuplicates(s: seq<string>)
  {
    forall i, j | 0 <= i < j < |s| :: s[i] != s[j]
  }

  /**
   * The position of the first occurrence of `id`, or None when it is absent:
   * an explicit found/not-found answer, so position 0 is an ordinary hit.
   */
  function IndexOf(students: seq<string>, id: string): (r: Option<nat>)
    ensures r.None? <==> id !in students
    ensures r.Some? ==> r.value < |students| && students[r.value] == id && id !in students[..r.value]
  {
    if |students| == 0 then None
    else if students[0] == id then Some(0)
    else
      match IndexOf(students[1..], id)
      case None => None
      case Some(i) =>
        assert students[..i + 1] == [students[0]] + students[1..][..i];
        Some(i + 1)
  }

  /** Enrolling a student not yet on a duplicate-free list keeps it duplicate-free, with the student once. */
  lemma AppendNew(students: seq<string>, id: string)
    requires NoDuplicates(students) && id !in students
    ensures NoDuplicates(students + [id])
    ensures multiset(students + [id])[id] == 1
  {
    assert multiset(students)[id] == 0;
  }

  /** The list without the first occurrence of `id`. */
  function RemoveStudent(students: seq<string>, id: string): (r: seq<string>)
    requires id in students
    ensures |r| == |students| - 1
    ensures multiset(r) == multiset(students) - multiset{id}
  {
    var i := IndexOf(students, id).value;
    assert students == students[..i] + [id] + students[i + 1..];
    students[..i] + students[i + 1..]
  }

  /** Where each element of the list without position `i` comes from. */
  lemma RemovedAt(s: seq<string>, i: nat, a: nat)
    requires i < |s| && a < |s| - 1
    ensures (s[..i] + s[i + 1..])[a] == s[if a < i then a else a + 1]
  {
  }

  /**
   * On a duplicate-free list, removal takes out exactly the named student:
   * it is gone, every other student stays, and the list stays duplicate-free.
   */
  lemma RemoveFromDistinct(students: seq<string>, id: string)
    requires id in students && NoDuplicates(students)
    ensures id !in RemoveStudent(students, id)
    ensures forall x | x != id :: x in RemoveStudent(students, id) <==> x in students
    ensures NoDuplicates(RemoveStudent(students, id))
  {
    var r := RemoveStudent(students, id);
    var i := IndexOf(students, id).value;
    assert r == students[..i] + students[i + 1..];
    forall a | 0 <= a < |r| ensures r[a] != id && r[a] in students {
      RemovedAt(students, i, a);
      var a' := if a < i then a else a + 1;
      assert students[a'] != students[i];
    }
    forall x | x != id && x in students ensures x in r {
      var j :| 0 <= j < |students| && students[j] == x;
      var a := if j < i then j else j - 1;
      RemovedAt(students, i, a);
      assert r[a] == x;
    }
    forall a, b | 0 <= a < b < |r| ensures r[a] != r[b] {
      RemovedAt(students, i, a);
      RemovedAt(students, i, b);
    }
  }

  /**
   * The enrolment test of src/course/course-contract.ts as written (lines
   * 103-105, 137-140 and 192-195): `find` yields the matching id itself and
   * its truth value decides, so an enrolled empty id counts as absent.
   */
  predicate FoundAsWritten(students: seq<string>, id: string)
  {
    id in students && id != ""
  }

  /**
   * As written, an enrolled empty id is reported as not enrolled although
   * IndexOf finds it, and enrolling it again would list it twice.
   */
  lemma AsWrittenMissesEmptyId(students: seq<string>)
    requires "" in students
    ensures !FoundAsWritten(students, "") && IndexOf(students, "").Some?
    ensures !NoDuplicates(students + [""])
  {
    var i :| 0 <= i < |students| && students[i] == "";
    assert (students + [""])[i] == (students + [""])[|students|];
  }

  /**
   * Where `splice(start, 1)` on a list of length `len` removes: a negative
   * start counts from the end (clamped at 0), a start past the end removes
   * nothing (the result is then `len`).
   */
  function SpliceStart(len: nat, start: int): (p: nat)
    ensures p <= len
    ensures 0 <= start < len ==> p == start
    ensures start >= len ==> p == len
    ensures start < 0 && 0 <= len + start ==> p == len + start
    ensures len + start < 0 ==> p == 0
  {
    if start < 0 then (if len + start < 0 then 0 else len + start)
    else if start < len then start
    else len
  }

  /**
   * Lines 137-145 of src/course/course-contract.ts as written: the enrolment
   * test is FoundAsWritten, and `splice` is handed the id where a position
   * belongs.  `start` is the integer JavaScript derives from that id: 0 for
   * every id that is not a numeric literal, UUIDs included.
   */
  function DisenrollAsWritten(students: seq<string>, id: string, start: int): (r: Option<seq<string>>)
    ensures r.Some? <==> FoundAsWritten(students, id)
    ensures r.Some? && SpliceStart(|students|, start) < |students| ==>
              |r.value| == |students| - 1 && multiset(r.value) == multiset(students) - multiset{students[SpliceStart(|students|, start)]}
    ensures r.Some? && SpliceStart(|students|, start) == |students| ==> r.value == students
  {
    if !FoundAsWritten(students, id) then None
    else
      var p := SpliceStart(|students|, start);
      if p < |students| then
        assert students == students[..p] + [students[p]] + students[p + 1..];
        Some(students[..p] + students[p + 1..])
      else Some(students)
  }

  /**
   * With a UUID id (converted to position 0) that is enrolled but not first,
   * the code as written removes the first student and keeps the named one,
   * where RemoveStudent removes the named one.
   */
  lemma AsWrittenRemovesFirstStudent(students: seq<string>, id: string)
    requires NoDuplicates(students) && id in students && id != "" && students[0] != id
    ensures DisenrollAsWritten(students, id, 0) == Some(students[1..])
    ensures id in students[1..] && students[0] !in students[1..]
    ensures id !in RemoveStudent(students, id) && students[0] in RemoveStudent(students, id)
  {
    RemoveFromDistinct(students, id);
    assert students[..0] + students[1..] == students[1..];
    assert students == [students[0]] + students[1..];
    forall j | 1 <= j < |students| ensures students[j] != students[0] {
      assert students[0] != students[j];
    }
  }
}
