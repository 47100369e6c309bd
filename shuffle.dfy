/**
 * Random placement: the seat cells, listed in reading order, are shuffled in
 * place by Fisher–Yates and the students are then paired with the shuffled
 * cells in list order. The random choices are an input: `picks[i]` is the
 * index `j`, with `0 <= j <= i`, drawn when the loop is at `i`.
 */
module Shuffle {
  import opened Grid
  import opened Roster
  import opened Assignment

  /** Picks usable for shuffling a list of length `n`. */
  predicate ValidPicks(picks: seq<int>, n: int)
  {
    |picks| >= n && forall i :: 0 <= i < n ==> 0 <= picks[i] <= i
  }

  function Swap<T>(s: seq<T>, i: int, j: int): (r: seq<T>)
    requires 0 <= i < |s| && 0 <= j < |s|
    ensures |r| == |s| && r[i] == s[j] && r[j] == s[i]
    ensures forall k :: 0 <= k < |s| && k != i && k != j ==> r[k] == s[k]
  {
    s[i := s[j]][j := s[i]]
  }

  /** The list after the shuffle loop has run for positions i, i-1, ..., 1. */
  function Shuffled<T>(s: seq<T>, picks: seq<int>, i: int): seq<T>
    requires i < |s| && ValidPicks(picks, i + 1)
    decreases i
  {
    if i <= 0 then s else Shuffled(Swap(s, i, picks[i]), picks, i - 1)
  }

  /** A swap permutes the list. */
  lemma SwapPermutes<T>(s: seq<T>, i: int, j: int)
    requires 0 <= i < |s| && 0 <= j < |s|
    ensures multiset(Swap(s, i, j)) == multiset(s)
    ensures NoDuplicates(s) ==> NoDuplicates(Swap(s, i, j))
  {
    var r := Swap(s, i, j);
    assert r == s[i := s[j]][j := s[i]];
    if NoDuplicates(s) {
      forall a, b | 0 <= a < b < |r|
        ensures r[a] != r[b]
      {
        var a' := if a == i then j else if a == j then i else a;
        var b' := if b == i then j else if b == j then i else b;
        assert r[a] == s[a'] && r[b] == s[b'];
      }
    }
  }

  /** The shuffle loop leaves a permutation of its input: the same cells, each
      as often as before, so no cell twice when there was none twice before. */
  lemma {:induction false} ShuffledPermutes<T>(s: seq<T>, picks: seq<int>, i: int)
    requires i < |s| && ValidPicks(picks, i + 1)
    ensures |Shuffled(s, picks, i)| == |s|
    ensures multiset(Shuffled(s, picks, i)) == multiset(s)
    ensures NoDuplicates(s) ==> NoDuplicates(Shuffled(s, picks, i))
    decreases i
  {
    if i > 0 {
      SwapPermutes(s, i, picks[i]);
      ShuffledPermutes(Swap(s, i, picks[i]), picks, i - 1);
    }
  }

  /** The shuffle loop of the randomize handler, on an array of cells. */
  method ShuffleInPlace(a: array<Cell>, picks: seq<int>)
    requires ValidPicks(picks, a.Length)
    modifies a
    ensures a[..] == Shuffled(old(a[..]), picks, a.Length - 1)
  {
    var i := a.Length - 1;
    while i > 0
      invariant -1 <= i < a.Length
      invariant a.Length > 0 ==> 0 <= i
      invariant Shuffled(a[..], picks, i) == Shuffled(old(a[..]), picks, a.Length - 1)
      decreases i
    {
      var j := picks[i];
      assert a[..][i := a[j]][j := a[i]] == Swap(a[..], i, j);
      a[i], a[j] := a[j], a[i];
      i := i - 1;
    }
  }

  /** The seat cells in the order the shuffle leaves them. */
  function ShuffledSeats(rows: int, cols: int, mask: set<Cell>, picks: seq<int>): seq<Cell>
    requires ValidPicks(picks, |SeatCells(rows, cols, mask)|)
  {
    Shuffled(SeatCells(rows, cols, mask), picks, |SeatCells(rows, cols, mask)| - 1)
  }

  /** The assignment the randomize handler produces: a fresh map pairing the
      students, in list order, with the shuffled seat cells. */
  function RandomSeats(rows: int, cols: int, mask: set<Cell>, students: seq<Student>, picks: seq<int>): Seats
    requires ValidPicks(picks, |SeatCells(rows, cols, mask)|)
  {
    Fill(map[], ShuffledSeats(rows, cols, mask, picks), students)
  }

  /** The shuffled keys are a permutation of the seat cells in reading order. */
  lemma ShuffledSeatsPermute(rows: int, cols: int, mask: set<Cell>, picks: seq<int>)
    requires ValidPicks(picks, |SeatCells(rows, cols, mask)|)
    ensures multiset(ShuffledSeats(rows, cols, mask, picks)) == multiset(SeatCells(rows, cols, mask))
    ensures NoDuplicates(ShuffledSeats(rows, cols, mask, picks))
    ensures forall x :: x in ShuffledSeats(rows, cols, mask, picks) <==>
      x in mask && 0 <= x.r < rows && 0 <= x.c < cols
  {
    var keys := SeatCells(rows, cols, mask);
    SeatCellsShape(rows, cols, mask);
    ShuffledPermutes(keys, picks, |keys| - 1);
    var sh := ShuffledSeats(rows, cols, mask, picks);
    forall x
      ensures x in sh <==> x in keys
    {
      assert x in sh <==> x in multiset(sh);
      assert x in keys <==> x in multiset(keys);
    }
  }

  /** After randomizing, exactly min(|students|, |seat cells|) seats are taken,
      all on seat cells inside the grid; student i of the list sits on the
      i-th shuffled cell; and distinct ids give an injective assignment. */
  lemma RandomSeatsSpec(rows: int, cols: int, mask: set<Cell>, students: seq<Student>, picks: seq<int>)
    requires ValidPicks(picks, |SeatCells(rows, cols, mask)|)
    ensures var sh := ShuffledSeats(rows, cols, mask, picks);
      var k := Min(|students|, |sh|);
      |RandomSeats(rows, cols, mask, students, picks)| == k &&
      (forall i :: 0 <= i < k ==>
        (sh[i] in RandomSeats(rows, cols, mask, students, picks) &&
         RandomSeats(rows, cols, mask, students, picks)[sh[i]] == students[i].id))
    ensures forall x :: x in RandomSeats(rows, cols, mask, students, picks) ==>
      x in mask && 0 <= x.r < rows && 0 <= x.c < cols
    ensures DistinctIds(students) ==> Injective(RandomSeats(rows, cols, mask, students, picks))
  {
    var sh := ShuffledSeats(rows, cols, mask, picks);
    var r := RandomSeats(rows, cols, mask, students, picks);
    ShuffledSeatsPermute(rows, cols, mask, picks);
    FillSpec(map[], sh, students);
    FillSize(map[], sh, students);
    assert |sh| == |SeatCells(rows, cols, mask)| by {
      ShuffledPermutes(SeatCells(rows, cols, mask), picks, |SeatCells(rows, cols, mask)| - 1);
    }
    forall x | x in r
      ensures x in mask && 0 <= x.r < rows && 0 <= x.c < cols
    {
      PrefixMembers(sh, Min(|students|, |sh|));
    }
    if DistinctIds(students) {
      FillInjective(map[], sh, students);
    }
  }

  /** With truthy student ids, no entry of the random assignment is empty. */
  lemma RandomSeatsNoBlank(rows: int, cols: int, mask: set<Cell>, students: seq<Student>, picks: seq<int>)
    requires ValidPicks(picks, |SeatCells(rows, cols, mask)|)
    requires IdsNonEmpty(students)
    ensures NoBlank(RandomSeats(rows, cols, mask, students, picks))
  {
    var sh := ShuffledSeats(rows, cols, mask, picks);
    var r := RandomSeats(rows, cols, mask, students, picks);
    ShuffledSeatsPermute(rows, cols, mask, picks);
    FillSpec(map[], sh, students);
    var k := Min(|students|, |sh|);
    forall x | x in r
      ensures r[x] != ""
    {
      assert x in sh[..k];
      var i :| 0 <= i < k && sh[..k][i] == x;
      assert sh[i] == x && r[x] == students[i].id;
      assert students[i] in students;
    }
  }

  /** The randomize handler ends with a render, which re-runs the reconciler on
      the same grid; when every student id is truthy that changes nothing:
      either every student got a seat or every seat got a student. */
  lemma RandomSeatsSettled(rows: int, cols: int, mask: set<Cell>, students: seq<Student>, picks: seq<int>)
    requires ValidPicks(picks, |SeatCells(rows, cols, mask)|)
    requires IdsNonEmpty(students)
    ensures Reconcile(RandomSeats(rows, cols, mask, students, picks), rows, cols, mask, students) ==
      RandomSeats(rows, cols, mask, students, picks)
  {
    var sh := ShuffledSeats(rows, cols, mask, picks);
    var r := RandomSeats(rows, cols, mask, students, picks);
    var k := Min(|students|, |sh|);
    RandomSeatsSpec(rows, cols, mask, students, picks);
    RandomSeatsNoBlank(rows, cols, mask, students, picks);
    ShuffledSeatsPermute(rows, cols, mask, picks);
    FillSpec(map[], sh, students);
    assert Carry(r, mask) == r;
    if k == |students| {
      forall s | s in students
        ensures s.id in r.Values
      {
        var i :| 0 <= i < |students| && students[i] == s;
        assert r[sh[i]] == s.id;
      }
      ExcludingAll(students, r.Values);
    } else {
      forall x | x in GridCells(rows, cols)
        ensures x !in mask - Occupied(r)
      {
        GridCellsMembership(rows, cols, x);
        if x in mask {
          assert x in sh;
          var i :| 0 <= i < |sh| && sh[i] == x;
          assert x in r && r[x] != "";
        }
      }
      SelectNone(GridCells(rows, cols), mask - Occupied(r));
    }
  }
}
