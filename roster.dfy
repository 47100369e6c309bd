/**
 * The student list: student records, the id conditions the seat engine relies
 * on, and the one list operation the engine uses twice — dropping every student
 * whose id belongs to a given set while keeping the others in order.
 */
module Roster {

  /** Student ids are strings; an empty id is falsy in the application. */
  type Id = string

  datatype Student = Student(id: Id, name: string, email: string)

  /** No two students share an id. */
  predicate DistinctIds(s: seq<Student>)
  {
    forall i, j :: 0 <= i < j < |s| ==> s[i].id != s[j].id
  }

  /** Every id is non-empty, i.e. truthy. */
  predicate IdsNonEmpty(s: seq<Student>)
  {
    forall i :: 0 <= i < |s| ==> s[i].id != ""
  }

  /** `a` is `b` with some elements left out and the rest in their order. */
  predicate IsSubsequence(a: seq<Student>, b: seq<Student>)
    decreases |b|
  {
    if a == [] then true
    else if b == [] then false
    else if a[0] == b[0] then IsSubsequence(a[1..], b[1..])
    else IsSubsequence(a, b[1..])
  }

  /** The students whose id is not in `ids`, in list order
      (`students.filter(s => !ids.includes(s.id))`). */
  function Excluding(s: seq<Student>, ids: set<Id>): seq<Student>
    decreases |s|
  {
    if s == [] then []
    else (if s[0].id in ids then [] else [s[0]]) + Excluding(s[1..], ids)
  }

  /** Excluding keeps exactly the students whose id is outside `ids`, in their
      order, and keeps ids distinct and non-empty when they were. */
  lemma ExcludingSpec(s: seq<Student>, ids: set<Id>)
    ensures IsSubsequence(Excluding(s, ids), s)
    ensures forall x :: x in Excluding(s, ids) <==> x in s && x.id !in ids
    ensures forall x :: multiset(Excluding(s, ids))[x] == if x.id in ids then 0 else multiset(s)[x]
    ensures DistinctIds(s) ==> DistinctIds(Excluding(s, ids))
    ensures IdsNonEmpty(s) ==> IdsNonEmpty(Excluding(s, ids))
  {
    ExcludingSubsequence(s, ids);
    ExcludingMembership(s, ids);
    ExcludingCount(s, ids);
    if DistinctIds(s) {
      ExcludingDistinct(s, ids);
    }
    if IdsNonEmpty(s) {
      var r := Excluding(s, ids);
      forall i | 0 <= i < |r|
        ensures r[i].id != ""
      {
        assert r[i] in r;
      }
    }
  }

  lemma {:induction false} ExcludingMembership(s: seq<Student>, ids: set<Id>)
    ensures forall x :: x in Excluding(s, ids) <==> x in s && x.id !in ids
    decreases |s|
  {
    if s != [] {
      ExcludingMembership(s[1..], ids);
      assert forall x :: x in s <==> x == s[0] || x in s[1..];
    }
  }

  /** Every record outside `ids` is kept as many times as it occurs, every
      record inside is dropped. */
  lemma {:induction false} ExcludingCount(s: seq<Student>, ids: set<Id>)
    ensures forall x :: multiset(Excluding(s, ids))[x] == if x.id in ids then 0 else multiset(s)[x]
    decreases |s|
  {
    if s != [] {
      ExcludingCount(s[1..], ids);
      var head := if s[0].id in ids then [] else [s[0]];
      assert s == [s[0]] + s[1..];
      assert multiset(s) == multiset([s[0]]) + multiset(s[1..]);
      assert multiset(Excluding(s, ids)) == multiset(head) + multiset(Excluding(s[1..], ids));
    }
  }

  lemma {:induction false} ExcludingSubsequence(s: seq<Student>, ids: set<Id>)
    ensures IsSubsequence(Excluding(s, ids), s)
    decreases |s|
  {
    if s != [] {
      var rest := Excluding(s[1..], ids);
      ExcludingSubsequence(s[1..], ids);
      if s[0].id !in ids {
        assert ([s[0]] + rest)[1..] == rest;
      } else {
        assert Excluding(s, ids) == rest;
        SubsequenceOfTail(rest, s);
      }
    }
  }

  lemma {:induction false} ExcludingDistinct(s: seq<Student>, ids: set<Id>)
    requires DistinctIds(s)
    ensures DistinctIds(Excluding(s, ids))
    decreases |s|
  {
    if s != [] {
      var rest := Excluding(s[1..], ids);
      ExcludingDistinct(s[1..], ids);
      ExcludingMembership(s[1..], ids);
      forall j | 0 <= j < |rest|
        ensures rest[j].id != s[0].id
      {
        assert rest[j] in s[1..];
        var k :| 0 <= k < |s[1..]| && s[1..][k] == rest[j];
        assert s[k + 1] == rest[j];
      }
    }
  }

  /** A subsequence of the tail is a subsequence of the whole list. */
  lemma {:induction false} SubsequenceOfTail(a: seq<Student>, b: seq<Student>)
    requires b != []
    requires IsSubsequence(a, b[1..])
    ensures IsSubsequence(a, b)
    decreases |b|, 0
  {
    if a != [] && a[0] == b[0] {
      SubsequenceDropFirst(a, b[1..]);
    }
  }

  /** Dropping the first element of a subsequence leaves a subsequence. */
  lemma {:induction false} SubsequenceDropFirst(a: seq<Student>, c: seq<Student>)
    requires a != []
    requires IsSubsequence(a, c)
    ensures IsSubsequence(a[1..], c)
    decreases |c|, 1
  {
    if a[0] != c[0] {
      SubsequenceDropFirst(a, c[1..]);
    }
    SubsequenceOfTail(a[1..], c);
  }

  /** Deleting a student (`students.filter(x => x.id !== id)`): the list loses
      every record with that id and keeps all the others, in order. */
  lemma WithoutStudent(s: seq<Student>, id: Id)
    ensures IsSubsequence(Excluding(s, {id}), s)
    ensures forall x :: x in Excluding(s, {id}) <==> x in s && x.id != id
    ensures forall x :: multiset(Excluding(s, {id}))[x] == if x.id == id then 0 else multiset(s)[x]
    ensures DistinctIds(s) ==> |Excluding(s, {id})| == |s| - (if exists i :: 0 <= i < |s| && s[i].id == id then 1 else 0)
  {
    ExcludingSpec(s, {id});
    if DistinctIds(s) {
      ExcludingLength(s, id);
    }
  }

  lemma {:induction false} ExcludingLength(s: seq<Student>, id: Id)
    requires DistinctIds(s)
    ensures |Excluding(s, {id})| == |s| - (if exists i :: 0 <= i < |s| && s[i].id == id then 1 else 0)
    decreases |s|
  {
    if s != [] {
      ExcludingLength(s[1..], id);
      assert DistinctIds(s[1..]);
      if s[0].id == id {
        assert !exists i :: 0 <= i < |s[1..]| && s[1..][i].id == id by {
          forall i | 0 <= i < |s[1..]| ensures s[1..][i].id != id {
            assert s[1..][i] == s[i + 1];
          }
        }
        assert s[0].id == id;
      } else {
        if exists i :: 0 <= i < |s| && s[i].id == id {
          var i :| 0 <= i < |s| && s[i].id == id;
          assert s[1..][i - 1].id == id;
        }
        if exists i :: 0 <= i < |s[1..]| && s[1..][i].id == id {
          var i :| 0 <= i < |s[1..]| && s[1..][i].id == id;
          assert s[i + 1].id == id;
        }
      }
    }
  }
}
