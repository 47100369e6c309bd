/**
 * Drag and drop of a seated student: the pixel position at release becomes a
 * grid cell (rounded to the nearest cell, then clamped into the grid), and the
 * drop either leaves the assignment alone, moves the student to an empty seat,
 * or swaps two students.
 */
module Drag {
  import opened Grid
  import opened Roster
  import opened Assignment

  /** `Math.round(x / w)` for a pixel offset `x` and a cell stride `w > 0`:
      the nearest integer, halves rounded up. */
  function RoundDiv(x: int, w: int): (n: int)
    requires w > 0
    ensures 2 * n * w - w <= 2 * x < 2 * n * w + w
  {
    var n := (2 * x + w) / (2 * w);
    assert 2 * x + w == (2 * w) * n + (2 * x + w) % (2 * w);
    n
  }

  /** The bounds of RoundDiv single out one integer. */
  lemma RoundDivUnique(x: int, w: int, n: int)
    requires w > 0
    requires 2 * n * w - w <= 2 * x < 2 * n * w + w
    ensures n == RoundDiv(x, w)
  {
    var m := RoundDiv(x, w);
    assert 2 * (n - m) * w == 2 * n * w - 2 * m * w;
    assert 2 * (m - n) * w == 2 * m * w - 2 * n * w;
    StrideMultiple(n - m, w);
    StrideMultiple(m - n, w);
  }

  lemma StrideMultiple(k: int, w: int)
    requires w > 0
    ensures k >= 1 ==> 2 * k * w >= 2 * w
  {
    if k >= 1 {
      assert 2 * k * w == 2 * w + 2 * (k - 1) * w;
    }
  }

  /** `Math.max(lo, Math.min(hi, x))`. */
  function Clamp(lo: int, hi: int, x: int): (r: int)
    ensures lo <= hi ==> lo <= r <= hi
    ensures lo <= x <= hi ==> r == x
    ensures lo <= hi && x < lo ==> r == lo
    ensures lo <= hi && x > hi ==> r == hi
  {
    Max(lo, Min(hi, x))
  }

  /** The cell a seat dropped with its top-left corner at (left, top) lands
      on: the pixel position divided by the stride and rounded, each
      coordinate clamped into the grid. */
  function Target(rows: int, cols: int, stride: int, left: int, top: int): (t: Cell)
    requires stride > 0
    ensures rows >= 1 && cols >= 1 ==> 0 <= t.r < rows && 0 <= t.c < cols
  {
    Cell(Clamp(0, rows - 1, RoundDiv(top, stride)), Clamp(0, cols - 1, RoundDiv(left, stride)))
  }

  /** A seat that is moved by less than half a stride in each direction snaps
      back onto its own cell: the drag is then the no-op `from == to`. */
  lemma ShortDragStaysPut(rows: int, cols: int, stride: int, from: Cell, dx: int, dy: int)
    requires stride > 0
    requires 0 <= from.r < rows && 0 <= from.c < cols
    requires -stride <= 2 * dx < stride && -stride <= 2 * dy < stride
    ensures Target(rows, cols, stride, from.c * stride + dx, from.r * stride + dy) == from
  {
    assert 2 * from.c * stride == 2 * (from.c * stride);
    assert 2 * from.r * stride == 2 * (from.r * stride);
    RoundDivUnique(from.c * stride + dx, stride, from.c);
    RoundDivUnique(from.r * stride + dy, stride, from.r);
  }

  /** pointerdown: a drag starts only on a seat that holds a student. */
  predicate CanStartDrag(mask: set<Cell>, seats: Seats, from: Cell)
  {
    from in mask && from in Occupied(seats)
  }

  /** The pointerup resolution, given the source cell and the clamped target:
      a target without a seat, an empty source, or the source itself leaves
      the assignment as it is; otherwise the source's student goes to the
      target, and the target's student, if any, comes back to the source. */
  function Release(seats: Seats, mask: set<Cell>, from: Cell, to: Cell): Seats
  {
    if to !in mask then seats
    else if from !in Occupied(seats) then seats
    else if from == to then seats
    else if to !in Occupied(seats) then seats[to := seats[from]] - {from}
    else seats[to := seats[from]][from := seats[to]]
  }

  /** The transposition of the two cells of a drop. */
  function Exchange(from: Cell, to: Cell, x: Cell): Cell
  {
    if x == from then to else if x == to then from else x
  }

  /** A drop that is not rejected exchanges the contents of the two cells:
      whatever sat on the source now sits on the target and vice versa, and
      every other cell keeps its entry. (If the target held an empty id, the
      source loses its key instead of receiving that empty id.) */
  lemma ReleaseExchanges(seats: Seats, mask: set<Cell>, from: Cell, to: Cell)
    requires to in mask && from in Occupied(seats) && from != to
    requires to in seats ==> seats[to] != ""
    ensures forall x :: x in Release(seats, mask, from, to) <==> Exchange(from, to, x) in seats
    ensures forall x :: x in Release(seats, mask, from, to) ==>
      Release(seats, mask, from, to)[x] == seats[Exchange(from, to, x)]
  {
  }

  /** A drop keeps the assignment on seats and injective, and, when no entry
      holds an empty id, keeps the number of entries and the set of seated
      students: a drag only ever moves or swaps. */
  lemma ReleasePreserves(seats: Seats, mask: set<Cell>, from: Cell, to: Cell)
    ensures OnSeats(seats, mask) ==> OnSeats(Release(seats, mask, from, to), mask)
    ensures Injective(seats) ==> Injective(Release(seats, mask, from, to))
    ensures NoBlank(seats) ==> NoBlank(Release(seats, mask, from, to))
    ensures NoBlank(seats) ==> |Release(seats, mask, from, to)| == |seats|
    ensures NoBlank(seats) ==> Release(seats, mask, from, to).Values == seats.Values
  {
    ReleaseOnSeats(seats, mask, from, to);
    ReleaseInjective(seats, mask, from, to);
    ReleaseCounts(seats, mask, from, to);
  }

  lemma ReleaseOnSeats(seats: Seats, mask: set<Cell>, from: Cell, to: Cell)
    ensures OnSeats(seats, mask) ==> OnSeats(Release(seats, mask, from, to), mask)
    ensures NoBlank(seats) ==> NoBlank(Release(seats, mask, from, to))
  {
  }

  lemma ReleaseInjective(seats: Seats, mask: set<Cell>, from: Cell, to: Cell)
    ensures Injective(seats) ==> Injective(Release(seats, mask, from, to))
  {
    if to in mask && from in Occupied(seats) && from != to && to !in Occupied(seats) && Injective(seats) {
      MoveInjective(seats, from, to);
    }
  }

  lemma ReleaseCounts(seats: Seats, mask: set<Cell>, from: Cell, to: Cell)
    ensures NoBlank(seats) ==> |Release(seats, mask, from, to)| == |seats|
    ensures NoBlank(seats) ==> Release(seats, mask, from, to).Values == seats.Values
  {
    if to in mask && from in Occupied(seats) && from != to && NoBlank(seats) {
      if to !in Occupied(seats) {
        MoveCount(seats, from, to);
      } else {
        SwapValues(seats, from, to);
      }
    }
  }

  lemma MoveInjective(seats: Seats, from: Cell, to: Cell)
    requires from in Occupied(seats) && from != to && Injective(seats)
    ensures Injective(seats[to := seats[from]] - {from})
  {
    var r := seats[to := seats[from]] - {from};
    forall x, y | x in r && y in r && x != y
      ensures r[x] != r[y]
    {
      if x == to {
        assert r[y] == seats[y];
      } else if y == to {
        assert r[x] == seats[x];
      } else {
        assert r[x] == seats[x] && r[y] == seats[y];
      }
    }
  }

  lemma MoveCount(seats: Seats, from: Cell, to: Cell)
    requires from in seats && from != to && to !in seats
    ensures |seats[to := seats[from]] - {from}| == |seats|
    ensures (seats[to := seats[from]] - {from}).Values == seats.Values
  {
    var r := seats[to := seats[from]] - {from};
    assert r.Keys == seats.Keys - {from} + {to};
    assert |seats.Keys - {from}| == |seats.Keys| - 1;
    assert |r.Keys| == |seats.Keys - {from}| + 1;
    forall v | v in seats.Values
      ensures v in r.Values
    {
      var x :| x in seats && seats[x] == v;
      assert r[Exchange(from, to, x)] == v;
    }
    forall v | v in r.Values
      ensures v in seats.Values
    {
      var x :| x in r && r[x] == v;
      assert seats[Exchange(from, to, x)] == v;
    }
  }

  lemma SwapValues(seats: Seats, from: Cell, to: Cell)
    requires from in seats && to in seats && from != to
    ensures (seats[to := seats[from]][from := seats[to]]).Values == seats.Values
  {
    var r := seats[to := seats[from]][from := seats[to]];
    forall v | v in seats.Values
      ensures v in r.Values
    {
      var x :| x in seats && seats[x] == v;
      assert r[Exchange(from, to, x)] == v;
    }
    forall v | v in r.Values
      ensures v in seats.Values
    {
      var x :| x in r && r[x] == v;
      assert seats[Exchange(from, to, x)] == v;
    }
  }

  /** Move: a student dragged onto an empty seat leaves the source seat empty. */
  lemma MoveExample(e1: Id, mask: set<Cell>)
    requires e1 != "" && Cell(0, 1) in mask
    ensures Release(map[Cell(0, 0) := e1], mask, Cell(0, 0), Cell(0, 1)) == map[Cell(0, 1) := e1]
  {
    var m := map[Cell(0, 0) := e1];
    assert Cell(0, 0) in Occupied(m);
    assert Cell(0, 1) !in Occupied(m);
    assert m[Cell(0, 1) := e1] - {Cell(0, 0)} == map[Cell(0, 1) := e1];
  }

  /** Swap: two seated students exchange their seats. */
  lemma SwapExample(e1: Id, e2: Id, mask: set<Cell>)
    requires e1 != "" && e2 != "" && Cell(0, 1) in mask
    ensures Release(map[Cell(0, 0) := e1, Cell(0, 1) := e2], mask, Cell(0, 0), Cell(0, 1)) ==
      map[Cell(0, 0) := e2, Cell(0, 1) := e1]
  {
    var m := map[Cell(0, 0) := e1, Cell(0, 1) := e2];
    assert Cell(0, 0) in Occupied(m);
    assert Cell(0, 1) in Occupied(m);
  }

  /** Rejection: the centre of a 3 x 3 U layout has no seat, so a drop there
      changes nothing. */
  lemma RejectionExample(seats: Seats, from: Cell)
    ensures Release(seats, Mask(3, 3, U), from, Cell(1, 1)) == seats
  {
    MaskShape(3, 3, U, Cell(1, 1));
  }
}
