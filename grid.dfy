/**
 * Grid geometry of the seat map: grid cells, the row-major reading order in
 * which every scan of the grid visits them, and the seat templates that decide
 * which cells hold a physical seat (the seat mask).
 */
module Grid {

  /** A grid position. The application keys its maps by the string `${r}_${c}`;
      a pair of integers carries the same information (see Export.CellKey). */
  datatype Cell = Cell(r: int, c: int)

  /** The named seat layouts. */
  datatype Template = Full | U | FrontRows

  function Min(a: int, b: int): int { if a <= b then a else b }
  function Max(a: int, b: int): int { if a >= b then a else b }

  /** The template chosen by a template name: "u" and "front-rows" name their
      layouts, "full" and every other name give the full grid. */
  function TemplateOf(name: string): (t: Template)
    ensures t == U <==> name == "u"
    ensures t == FrontRows <==> name == "front-rows"
    ensures t == Full <==> name != "u" && name != "front-rows"
  {
    if name == "full" then Full
    else if name == "u" then U
    else if name == "front-rows" then FrontRows
    else Full
  }

  /** Cell `a` comes strictly before cell `b` in reading order. */
  predicate Before(a: Cell, b: Cell)
  {
    a.r < b.r || (a.r == b.r && a.c < b.c)
  }

  /** Every cell of `s` comes strictly before every later cell of `s`. */
  predicate RowMajor(s: seq<Cell>)
  {
    forall i, j :: 0 <= i < j < |s| ==> Before(s[i], s[j])
  }

  predicate NoDuplicates<T(==)>(s: seq<T>)
  {
    forall i, j :: 0 <= i < j < |s| ==> s[i] != s[j]
  }

  /** The cells (r, 0), ..., (r, n-1): one row as the inner scan loop visits it. */
  function RowCells(r: int, n: int): seq<Cell>
    decreases n
  {
    if n <= 0 then [] else RowCells(r, n - 1) + [Cell(r, n - 1)]
  }

  /** The cells of rows 0 .. rows-1, row after row: the nested
      `for r … for c …` scan used throughout the application. */
  function GridCells(rows: int, cols: int): seq<Cell>
    decreases rows
  {
    if rows <= 0 then [] else GridCells(rows - 1, cols) + RowCells(rows - 1, cols)
  }

  /** The cells of `s` that belong to `keep`, in the order of `s`. */
  function Select(s: seq<Cell>, keep: set<Cell>): seq<Cell>
    decreases |s|
  {
    if s == [] then []
    else Select(s[..|s| - 1], keep) + (if s[|s| - 1] in keep then [s[|s| - 1]] else [])
  }

  /** How many rows the template's scan visits: the front-rows layout keeps
      max(1, min(rows, 2)) rows, the others scan all rows. */
  function RowLimit(rows: int, t: Template): int
  {
    if t == FrontRows then Max(1, Min(rows, 2)) else rows
  }

  /** The per-cell condition of a template within the scanned rows: the U layout
      keeps the left column, the right column and the back row; the others keep
      every scanned cell. */
  predicate InShape(t: Template, rows: int, cols: int, x: Cell)
  {
    t == U ==> x.c == 0 || x.c == cols - 1 || x.r == rows - 1
  }

  /** The cells of `s` on which the template puts a seat. */
  function ShapeCells(s: seq<Cell>, t: Template, rows: int, cols: int): set<Cell>
  {
    set x | x in s && InShape(t, rows, cols, x)
  }

  /** The seat mask of a `rows` x `cols` grid under template `t`. */
  function Mask(rows: int, cols: int, t: Template): set<Cell>
  {
    ShapeCells(GridCells(RowLimit(rows, t), cols), t, rows, cols)
  }

  /** The seat cells of the grid in reading order. */
  function SeatCells(rows: int, cols: int, mask: set<Cell>): seq<Cell>
  {
    Select(GridCells(rows, cols), mask)
  }

  /** Selecting from a list extended by one cell. */
  lemma SelectSnoc(s: seq<Cell>, x: Cell, keep: set<Cell>)
    ensures Select(s + [x], keep) == Select(s, keep) + (if x in keep then [x] else [])
  {
    assert (s + [x])[..|s|] == s;
  }

  lemma {:induction false} RowCellsShape(r: int, n: int)
    ensures |RowCells(r, n)| == Max(n, 0)
    ensures forall i :: 0 <= i < |RowCells(r, n)| ==> RowCells(r, n)[i] == Cell(r, i)
    decreases n
  {
    if n > 0 {
      RowCellsShape(r, n - 1);
    }
  }

  lemma RowCellsMembership(r: int, n: int, x: Cell)
    ensures x in RowCells(r, n) <==> x.r == r && 0 <= x.c < n
  {
    RowCellsShape(r, n);
    if x.r == r && 0 <= x.c < n {
      assert RowCells(r, n)[x.c] == x;
    }
  }

  lemma InConcat(a: seq<Cell>, b: seq<Cell>, x: Cell)
    ensures x in a + b <==> x in a || x in b
  {
  }

  /** The scan visits exactly the cells of the rectangle [0, rows) x [0, cols). */
  lemma {:induction false} GridCellsMembership(rows: int, cols: int, x: Cell)
    ensures x in GridCells(rows, cols) <==> 0 <= x.r < rows && 0 <= x.c < cols
    decreases rows
  {
    if rows > 0 {
      var a, b := GridCells(rows - 1, cols), RowCells(rows - 1, cols);
      assert GridCells(rows, cols) == a + b;
      GridCellsMembership(rows - 1, cols, x);
      RowCellsMembership(rows - 1, cols, x);
      InConcat(a, b, x);
    }
  }

  lemma {:induction false} GridCellsRows(rows: int, cols: int)
    ensures forall x :: x in GridCells(rows, cols) ==> 0 <= x.r < rows && 0 <= x.c < cols
  {
    forall x | x in GridCells(rows, cols)
      ensures 0 <= x.r < rows && 0 <= x.c < cols
    {
      GridCellsMembership(rows, cols, x);
    }
  }

  /** The scan visits cells in strictly increasing reading order, so no cell twice. */
  lemma {:induction false} GridCellsRowMajor(rows: int, cols: int)
    ensures RowMajor(GridCells(rows, cols))
    decreases rows
  {
    if rows > 0 {
      var a, b := GridCells(rows - 1, cols), RowCells(rows - 1, cols);
      GridCellsRowMajor(rows - 1, cols);
      GridCellsRows(rows - 1, cols);
      RowCellsShape(rows - 1, cols);
      forall i, j | 0 <= i < j < |a + b|
        ensures Before((a + b)[i], (a + b)[j])
      {
        if i < |a| && j >= |a| {
          assert a[i] in a;
        }
      }
    }
  }

  /** Selection keeps exactly the cells of `s` in `keep`. */
  lemma {:induction false} SelectMembership(s: seq<Cell>, keep: set<Cell>, x: Cell)
    ensures x in Select(s, keep) <==> x in s && x in keep
    decreases |s|
  {
    if s != [] {
      var init := s[..|s| - 1];
      SelectMembership(init, keep, x);
      assert s == init + [s[|s| - 1]];
    }
  }

  lemma {:induction false} SelectSubset(s: seq<Cell>, keep: set<Cell>)
    ensures forall x :: x in Select(s, keep) ==> x in s && x in keep
  {
    forall x | x in Select(s, keep)
      ensures x in s && x in keep
    {
      SelectMembership(s, keep, x);
    }
  }

  /** Selection keeps the reading order of its input. */
  lemma {:induction false} SelectRowMajor(s: seq<Cell>, keep: set<Cell>)
    requires RowMajor(s)
    ensures RowMajor(Select(s, keep))
    decreases |s|
  {
    if s != [] {
      var init := s[..|s| - 1];
      SelectRowMajor(init, keep);
      SelectSubset(init, keep);
      var last := s[|s| - 1];
      forall x | x in init
        ensures Before(x, last)
      {
        var i :| 0 <= i < |init| && init[i] == x;
        assert s[i] == x;
      }
      var a := Select(init, keep);
      if last in keep {
        forall i, j | 0 <= i < j < |a| + 1
          ensures Before((a + [last])[i], (a + [last])[j])
        {
          if j == |a| {
            assert a[i] in a;
          }
        }
      }
    }
  }

  /** The seat cells are listed in reading order, each once, and they are
      exactly the mask cells inside the grid. */
  lemma SeatCellsShape(rows: int, cols: int, mask: set<Cell>)
    ensures RowMajor(SeatCells(rows, cols, mask))
    ensures NoDuplicates(SeatCells(rows, cols, mask))
    ensures forall x :: x in SeatCells(rows, cols, mask) <==>
      x in mask && 0 <= x.r < rows && 0 <= x.c < cols
  {
    GridCellsRowMajor(rows, cols);
    SelectRowMajor(GridCells(rows, cols), mask);
    forall x
      ensures x in SeatCells(rows, cols, mask) <==> x in mask && 0 <= x.r < rows && 0 <= x.c < cols
    {
      SelectMembership(GridCells(rows, cols), mask, x);
      GridCellsMembership(rows, cols, x);
    }
  }

  /** Which cells hold a seat, template by template. For a grid of at least
      one row, the mask lies inside the grid. */
  lemma MaskShape(rows: int, cols: int, t: Template, x: Cell)
    ensures t == Full ==> (x in Mask(rows, cols, t) <==> 0 <= x.r < rows && 0 <= x.c < cols)
    ensures t == U ==> (x in Mask(rows, cols, t) <==>
      0 <= x.r < rows && 0 <= x.c < cols && (x.c == 0 || x.c == cols - 1 || x.r == rows - 1))
    ensures t == FrontRows ==> (x in Mask(rows, cols, t) <==>
      0 <= x.r < Max(1, Min(rows, 2)) && 0 <= x.c < cols)
  {
    GridCellsMembership(RowLimit(rows, t), cols, x);
  }

  /** With at least one row, as buildGrid guarantees, every seat lies inside
      the grid. */
  lemma MaskInsideGrid(rows: int, cols: int, t: Template, x: Cell)
    requires rows >= 1
    ensures x in Mask(rows, cols, t) ==> 0 <= x.r < rows && 0 <= x.c < cols
  {
    MaskShape(rows, cols, t, x);
  }

  /** An unknown template name gives the same mask as "full". */
  lemma UnknownTemplateIsFull(rows: int, cols: int, name: string)
    requires name != "u" && name != "front-rows"
    ensures Mask(rows, cols, TemplateOf(name)) == Mask(rows, cols, Full)
  {
  }

  /** With zero rows (an unclamped Apply Grid input), the front-rows template
      still marks row 0, so the mask leaves the grid. */
  lemma FrontRowsOnEmptyGrid()
    ensures Cell(0, 0) in Mask(0, 1, FrontRows)
  {
    MaskShape(0, 1, FrontRows, Cell(0, 0));
  }

  /** The U layout of a 3 x 3 grid leaves out the top middle and the centre. */
  lemma ThreeByThreeU()
    ensures Mask(3, 3, U) ==
      {Cell(0, 0), Cell(0, 2), Cell(1, 0), Cell(1, 2), Cell(2, 0), Cell(2, 1), Cell(2, 2)}
  {
    forall x
      ensures x in Mask(3, 3, U) <==>
        x in {Cell(0, 0), Cell(0, 2), Cell(1, 0), Cell(1, 2), Cell(2, 0), Cell(2, 1), Cell(2, 2)}
    {
      MaskShape(3, 3, U, x);
    }
  }

  /** The nested scan of the template branches in applyTemplate: every cell of
      the scanned rows that satisfies the template's condition gets a seat. */
  method BuildMask(rows: int, cols: int, t: Template) returns (mask: set<Cell>)
    ensures mask == Mask(rows, cols, t)
  {
    var limit := RowLimit(rows, t);
    mask := {};
    var r := 0;
    while r < limit
      invariant 0 <= r <= Max(limit, 0)
      invariant mask == ShapeCells(GridCells(r, cols), t, rows, cols)
    {
      var c := 0;
      while c < cols
        invariant 0 <= c <= Max(cols, 0)
        invariant mask == ShapeCells(GridCells(r, cols) + RowCells(r, c), t, rows, cols)
      {
        ghost var seen := GridCells(r, cols) + RowCells(r, c);
        assert GridCells(r, cols) + RowCells(r, c + 1) == seen + [Cell(r, c)];
        if InShape(t, rows, cols, Cell(r, c)) {
          mask := mask + {Cell(r, c)};
        }
        c := c + 1;
      }
      r := r + 1;
    }
  }
}
