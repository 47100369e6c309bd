/**
 * The seat assignment: a partial map from seat cells to student ids, and the
 * three ways the application fills it — the reconciler run by applyTemplate
 * on every render, the gap filler assignUnplacedStudents, and the pairing of
 * a cell list with a student list that both of them (and randomize) end with.
 */
module Assignment {
  import opened Grid
  import opened Roster

  /** `state.seats`: seat cell to student id. */
  type Seats = map<Cell, Id>

  /** The cells whose entry holds a truthy (non-empty) id. */
  function Occupied(m: Seats): set<Cell>
  {
    set x | x in m && m[x] != ""
  }

  /** Every assigned cell is a seat. */
  predicate OnSeats(m: Seats, mask: set<Cell>)
  {
    m.Keys <= mask
  }

  /** No student id sits in two cells. */
  predicate Injective(m: Seats)
  {
    forall x, y :: x in m && y in m && x != y ==> m[x] != m[y]
  }

  /** No entry holds an empty id. */
  predicate NoBlank(m: Seats)
  {
    forall x :: x in m ==> m[x] != ""
  }

  /** The first pass of the reconciler: the old pairs whose cell is still a
      seat and whose id is truthy. */
  function Carry(seats: Seats, mask: set<Cell>): Seats
  {
    map x | x in seats && x in mask && seats[x] != "" :: seats[x]
  }

  /** The seat cells without a student, in reading order. */
  function FreeCells(rows: int, cols: int, mask: set<Cell>, m: Seats): seq<Cell>
  {
    SeatCells(rows, cols, mask - Occupied(m))
  }

  /** The students whose id is not a value of `m`, in list order. */
  function Unseated(students: seq<Student>, m: Seats): seq<Student>
  {
    Excluding(students, m.Values)
  }

  /** The pairing loop `for (i = 0; i < ss.length && i < cells.length; i++)
      m[cells[i]] = ss[i].id`. */
  function Fill(m: Seats, cells: seq<Cell>, ss: seq<Student>): Seats
    decreases |cells|
  {
    if cells == [] || ss == [] then m
    else Fill(m[cells[0] := ss[0].id], cells[1..], ss[1..])
  }

  /** Seat the students who are not yet seated in `m` on the free seats of `m`,
      in list order and reading order. This is assignUnplacedStudents. */
  function Place(m: Seats, rows: int, cols: int, mask: set<Cell>, students: seq<Student>): Seats
  {
    Fill(m, FreeCells(rows, cols, mask, m), Unseated(students, m))
  }

  /** applyTemplate with keepAssignments: keep the pairs still on a seat, then
      seat everybody else as Place does. */
  function Reconcile(seats: Seats, rows: int, cols: int, mask: set<Cell>, students: seq<Student>): Seats
  {
    Place(Carry(seats, mask), rows, cols, mask, students)
  }

  /** With no students and no assignment there is nothing to reconcile. */
  lemma ReconcileEmpty(rows: int, cols: int, mask: set<Cell>)
    ensures Reconcile(map[], rows, cols, mask, []) == map[]
  {
    assert Carry(map[], mask) == map[];
    assert Unseated([], map[]) == [];
  }

  /** A list without repetitions has as many distinct members as elements. */
  lemma {:induction false} DistinctCardinality(s: seq<Cell>)
    requires NoDuplicates(s)
    ensures |(set x | x in s)| == |s|
    decreases |s|
  {
    if s != [] {
      var t := s[1..];
      DistinctCardinality(t);
      assert (set x | x in s) == {s[0]} + (set x | x in t);
      forall j | 0 <= j < |t|
        ensures t[j] != s[0]
      {
        assert t[j] == s[j + 1];
      }
      assert s[0] !in (set x | x in t);
    }
  }

  /** The seat list holds each seat of the grid once, so its length is the
      number of seats inside the grid. */
  lemma SeatCount(rows: int, cols: int, mask: set<Cell>)
    ensures |SeatCells(rows, cols, mask)| ==
      |(set x | x in mask && 0 <= x.r < rows && 0 <= x.c < cols)|
  {
    var s := SeatCells(rows, cols, mask);
    SeatCellsShape(rows, cols, mask);
    DistinctCardinality(s);
    assert (set x | x in s) == (set x | x in mask && 0 <= x.r < rows && 0 <= x.c < cols);
  }

  /** The pairing loop seats ss[i] on cells[i] for every i below
      k = min(|cells|, |ss|), adds no other key and changes no other entry. */
  lemma {:induction false} FillSpec(m: Seats, cells: seq<Cell>, ss: seq<Student>)
    requires NoDuplicates(cells)
    ensures forall i :: 0 <= i < Min(|cells|, |ss|) ==>
      cells[i] in Fill(m, cells, ss) && Fill(m, cells, ss)[cells[i]] == ss[i].id
    ensures forall x :: x in Fill(m, cells, ss) <==> x in m || x in cells[..Min(|cells|, |ss|)]
    ensures forall x :: x in m && x !in cells[..Min(|cells|, |ss|)] ==> Fill(m, cells, ss)[x] == m[x]
    decreases |cells|
  {
    if cells != [] && ss != [] {
      var k := Min(|cells|, |ss|);
      var m' := m[cells[0] := ss[0].id];
      var tail := cells[1..];
      assert NoDuplicates(tail);
      FillSpec(m', tail, ss[1..]);
      assert tail[..k - 1] == cells[1..k];
      forall j | 0 <= j < k - 1
        ensures tail[j] != cells[0]
      {
        assert tail[j] == cells[j + 1];
      }
      assert cells[0] !in tail[..k - 1];
      assert forall x :: x in cells[..k] <==> x == cells[0] || x in tail[..k - 1] by {
        assert cells[..k] == [cells[0]] + tail[..k - 1];
      }
      forall i | 0 <= i < k
        ensures cells[i] in Fill(m, cells, ss) && Fill(m, cells, ss)[cells[i]] == ss[i].id
      {
        if i > 0 {
          assert cells[i] == tail[i - 1];
        }
      }
    }
  }

  /** Pairing students whose ids are distinct and not yet values of `m` keeps
      the map injective. */
  lemma {:induction false} FillInjective(m: Seats, cells: seq<Cell>, ss: seq<Student>)
    requires Injective(m)
    requires DistinctIds(ss)
    requires forall s :: s in ss ==> s.id !in m.Values
    ensures Injective(Fill(m, cells, ss))
    decreases |cells|
  {
    if cells != [] && ss != [] {
      var m' := m[cells[0] := ss[0].id];
      forall x, y | x in m' && y in m' && x != y
        ensures m'[x] != m'[y]
      {
        if x != cells[0] && y != cells[0] {
        } else if x == cells[0] {
          assert m[y] in m.Values;
        } else {
          assert m[x] in m.Values;
        }
      }
      forall s | s in ss[1..]
        ensures s.id !in m'.Values
      {
        var j :| 0 <= j < |ss[1..]| && ss[1..][j] == s;
        assert ss[j + 1] == s;
        assert s.id != ss[0].id;
        assert s in ss;
        forall x | x in m'
          ensures m'[x] != s.id
        {
          if x != cells[0] {
            assert m[x] in m.Values;
          }
        }
      }
      assert DistinctIds(ss[1..]);
      FillInjective(m', cells[1..], ss[1..]);
    }
  }

  /** The free cells are the seat cells without a student, in reading order. */
  lemma FreeCellsShape(rows: int, cols: int, mask: set<Cell>, m: Seats)
    ensures RowMajor(FreeCells(rows, cols, mask, m))
    ensures NoDuplicates(FreeCells(rows, cols, mask, m))
    ensures forall x :: x in FreeCells(rows, cols, mask, m) <==>
      x in mask && x !in Occupied(m) && 0 <= x.r < rows && 0 <= x.c < cols
  {
    SeatCellsShape(rows, cols, mask - Occupied(m));
  }

  /** Every cell of a prefix of `s` is a cell of `s`. */
  lemma PrefixMembers(s: seq<Cell>, k: int)
    requires 0 <= k <= |s|
    ensures forall x :: x in s[..k] ==> x in s
  {
    forall x | x in s[..k]
      ensures x in s
    {
      var j :| 0 <= j < k && s[..k][j] == x;
      assert s[j] == x;
    }
  }

  /** assignUnplacedStudents removes no key and never changes an entry that
      holds a student: every entry it adds or overwrites is a free seat, i.e. a
      seat inside the grid whose entry was missing or empty. */
  lemma PlaceKeeps(m: Seats, rows: int, cols: int, mask: set<Cell>, students: seq<Student>)
    ensures forall x :: x in m ==> x in Place(m, rows, cols, mask, students)
    ensures forall x :: x in m && m[x] != "" ==> Place(m, rows, cols, mask, students)[x] == m[x]
    ensures forall x :: (x in Place(m, rows, cols, mask, students) &&
      (x !in m || Place(m, rows, cols, mask, students)[x] != m[x])) ==>
      x in mask && x !in Occupied(m) && 0 <= x.r < rows && 0 <= x.c < cols
  {
    var F := FreeCells(rows, cols, mask, m);
    var R := Unseated(students, m);
    FreeCellsShape(rows, cols, mask, m);
    FillSpec(m, F, R);
    PrefixMembers(F, Min(|F|, |R|));
  }

  /** assignUnplacedStudents seats the first k not-yet-seated students, in
      list order, on the first k free seats, in reading order, where
      k = min(#unseated, #free). */
  lemma PlaceOrder(m: Seats, rows: int, cols: int, mask: set<Cell>, students: seq<Student>)
    ensures forall i :: 0 <= i < Min(|FreeCells(rows, cols, mask, m)|, |Unseated(students, m)|) ==>
      FreeCells(rows, cols, mask, m)[i] in Place(m, rows, cols, mask, students) &&
      Place(m, rows, cols, mask, students)[FreeCells(rows, cols, mask, m)[i]] == Unseated(students, m)[i].id
  {
    FreeCellsShape(rows, cols, mask, m);
    FillSpec(m, FreeCells(rows, cols, mask, m), Unseated(students, m));
  }

  /** The values the pairing loop leaves: old values and the ids it wrote. */
  lemma FillValues(m: Seats, cells: seq<Cell>, ss: seq<Student>, x: Cell)
    requires NoDuplicates(cells)
    requires x in Fill(m, cells, ss)
    ensures (x in m && Fill(m, cells, ss)[x] == m[x]) ||
      exists j :: 0 <= j < Min(|cells|, |ss|) && Fill(m, cells, ss)[x] == ss[j].id
  {
    var k := Min(|cells|, |ss|);
    FillSpec(m, cells, ss);
    if x in cells[..k] {
      var j :| 0 <= j < k && cells[..k][j] == x;
      assert cells[j] == x;
    }
  }

  /** When ids are distinct, the students beyond the free capacity stay
      unseated: assignUnplacedStudents gives them no seat. */
  lemma PlaceCapacity(m: Seats, rows: int, cols: int, mask: set<Cell>, students: seq<Student>)
    requires DistinctIds(students)
    ensures forall i :: Min(|FreeCells(rows, cols, mask, m)|, |Unseated(students, m)|) <= i < |Unseated(students, m)| ==>
      Unseated(students, m)[i].id !in Place(m, rows, cols, mask, students).Values
  {
    var F := FreeCells(rows, cols, mask, m);
    var R := Unseated(students, m);
    var k := Min(|F|, |R|);
    var r := Place(m, rows, cols, mask, students);
    FreeCellsShape(rows, cols, mask, m);
    ExcludingSpec(students, m.Values);
    forall i | k <= i < |R|
      ensures R[i].id !in r.Values
    {
      assert R[i] in R;
      forall x | x in r
        ensures r[x] != R[i].id
      {
        FillValues(m, F, R, x);
        if x in m && r[x] == m[x] {
          assert m[x] in m.Values;
        }
      }
    }
  }

  /** assignUnplacedStudents keeps an assignment on seats, and injective when
      student ids are distinct. */
  lemma PlaceInvariants(m: Seats, rows: int, cols: int, mask: set<Cell>, students: seq<Student>)
    ensures OnSeats(m, mask) ==> OnSeats(Place(m, rows, cols, mask, students), mask)
    ensures Injective(m) && DistinctIds(students) ==> Injective(Place(m, rows, cols, mask, students))
    ensures NoBlank(m) && IdsNonEmpty(students) ==> NoBlank(Place(m, rows, cols, mask, students))
  {
    PlaceKeeps(m, rows, cols, mask, students);
    if Injective(m) && DistinctIds(students) {
      PlaceInjective(m, rows, cols, mask, students);
    }
    if NoBlank(m) && IdsNonEmpty(students) {
      PlaceNoBlank(m, rows, cols, mask, students);
    }
  }

  lemma PlaceInjective(m: Seats, rows: int, cols: int, mask: set<Cell>, students: seq<Student>)
    requires Injective(m) && DistinctIds(students)
    ensures Injective(Place(m, rows, cols, mask, students))
  {
    ExcludingSpec(students, m.Values);
    FillInjective(m, FreeCells(rows, cols, mask, m), Unseated(students, m));
  }

  lemma PlaceNoBlank(m: Seats, rows: int, cols: int, mask: set<Cell>, students: seq<Student>)
    requires NoBlank(m) && IdsNonEmpty(students)
    ensures NoBlank(Place(m, rows, cols, mask, students))
  {
    var F := FreeCells(rows, cols, mask, m);
    var R := Unseated(students, m);
    var r := Place(m, rows, cols, mask, students);
    ExcludingSpec(students, m.Values);
    FreeCellsShape(rows, cols, mask, m);
    forall x | x in r
      ensures r[x] != ""
    {
      FillValues(m, F, R, x);
      if !(x in m && r[x] == m[x]) {
        var j :| 0 <= j < Min(|F|, |R|) && r[x] == R[j].id;
        assert R[j] in R;
      }
    }
  }

  /** The reconciler assigns only seats of the new mask. */
  lemma ReconcileOnSeats(seats: Seats, rows: int, cols: int, mask: set<Cell>, students: seq<Student>)
    ensures OnSeats(Reconcile(seats, rows, cols, mask, students), mask)
  {
    PlaceInvariants(Carry(seats, mask), rows, cols, mask, students);
  }

  /** The reconciler keeps, unchanged, every old pair whose cell is still a
      seat and whose id is truthy; every other key it produces is a free seat. */
  lemma ReconcileKeeps(seats: Seats, rows: int, cols: int, mask: set<Cell>, students: seq<Student>)
    ensures forall x :: x in seats && x in mask && seats[x] != "" ==>
      x in Reconcile(seats, rows, cols, mask, students) &&
      Reconcile(seats, rows, cols, mask, students)[x] == seats[x]
    ensures forall x :: x in Reconcile(seats, rows, cols, mask, students) ==>
      (x in seats && x in mask && seats[x] != "") || x in FreeCells(rows, cols, mask, Carry(seats, mask))
  {
    var C := Carry(seats, mask);
    var F := FreeCells(rows, cols, mask, C);
    var R := Unseated(students, C);
    PlaceKeeps(C, rows, cols, mask, students);
    FreeCellsShape(rows, cols, mask, C);
    FillSpec(C, F, R);
    PrefixMembers(F, Min(|F|, |R|));
  }

  /** After the carried pairs, the reconciler seats the first k remaining
      students, in list order, on the first k free seats, in reading order,
      where k = min(#remaining, #free). */
  lemma ReconcileFill(seats: Seats, rows: int, cols: int, mask: set<Cell>, students: seq<Student>)
    ensures var C := Carry(seats, mask);
      var F := FreeCells(rows, cols, mask, C);
      var R := Unseated(students, C);
      forall i :: 0 <= i < Min(|F|, |R|) ==>
        F[i] in Reconcile(seats, rows, cols, mask, students) &&
        Reconcile(seats, rows, cols, mask, students)[F[i]] == R[i].id
  {
    PlaceOrder(Carry(seats, mask), rows, cols, mask, students);
  }

  /** Pairing onto cells that are all new keys adds exactly k entries. */
  lemma {:induction false} FillSize(m: Seats, cells: seq<Cell>, ss: seq<Student>)
    requires NoDuplicates(cells)
    requires forall x :: x in cells ==> x !in m
    ensures |Fill(m, cells, ss)| == |m| + Min(|cells|, |ss|)
    decreases |cells|
  {
    if cells != [] && ss != [] {
      var m' := m[cells[0] := ss[0].id];
      assert cells[0] in cells;
      assert |m'| == |m| + 1;
      forall x | x in cells[1..]
        ensures x !in m'
      {
        var j :| 0 <= j < |cells[1..]| && cells[1..][j] == x;
        assert cells[j + 1] == x;
        assert x in cells;
      }
      assert NoDuplicates(cells[1..]);
      FillSize(m', cells[1..], ss[1..]);
    }
  }

  /** The reconciled assignment has exactly #carried + k entries: nobody is
      seated twice by it and no carried pair is overwritten. */
  lemma ReconcileSize(seats: Seats, rows: int, cols: int, mask: set<Cell>, students: seq<Student>)
    ensures var C := Carry(seats, mask);
      |Reconcile(seats, rows, cols, mask, students)| ==
        |C| + Min(|FreeCells(rows, cols, mask, C)|, |Unseated(students, C)|)
  {
    var C := Carry(seats, mask);
    var F := FreeCells(rows, cols, mask, C);
    FreeCellsShape(rows, cols, mask, C);
    assert Occupied(C) == C.Keys;
    FillSize(C, F, Unseated(students, C));
  }

  /** The reconciler keeps the assignment injective when student ids are
      distinct, and leaves no empty id when no student id is empty. */
  lemma ReconcileInvariants(seats: Seats, rows: int, cols: int, mask: set<Cell>, students: seq<Student>)
    ensures Injective(seats) && DistinctIds(students) ==> Injective(Reconcile(seats, rows, cols, mask, students))
    ensures IdsNonEmpty(students) ==> NoBlank(Reconcile(seats, rows, cols, mask, students))
  {
    var C := Carry(seats, mask);
    var F := FreeCells(rows, cols, mask, C);
    var R := Unseated(students, C);
    var r := Reconcile(seats, rows, cols, mask, students);
    if Injective(seats) {
      assert Injective(C);
    }
    PlaceInvariants(C, rows, cols, mask, students);
    if IdsNonEmpty(students) {
      ExcludingSpec(students, C.Values);
      FreeCellsShape(rows, cols, mask, C);
      forall x | x in r
        ensures r[x] != ""
      {
        FillValues(C, F, R, x);
        if x in C && r[x] == C[x] {
        } else {
          var j :| 0 <= j < Min(|F|, |R|) && r[x] == R[j].id;
          assert R[j] in R;
        }
      }
    }
  }

  /** An assignment with nobody left to seat, or no free seat left, is a
      fixed point of the gap filler. */
  lemma PlaceSettled(m: Seats, rows: int, cols: int, mask: set<Cell>, students: seq<Student>)
    requires Unseated(students, m) == [] || FreeCells(rows, cols, mask, m) == []
    ensures Place(m, rows, cols, mask, students) == m
  {
  }

  /** Excluding every id of the list leaves nothing. */
  lemma {:induction false} ExcludingAll(s: seq<Student>, ids: set<Id>)
    requires forall x :: x in s ==> x.id in ids
    ensures Excluding(s, ids) == []
    decreases |s|
  {
    if s != [] {
      assert s[0] in s;
      ExcludingAll(s[1..], ids);
    }
  }

  /** Selecting with a set that misses every cell of the list gives nothing. */
  lemma {:induction false} SelectNone(s: seq<Cell>, keep: set<Cell>)
    requires forall x :: x in s ==> x !in keep
    ensures Select(s, keep) == []
    decreases |s|
  {
    if s != [] {
      assert s[|s| - 1] in s;
      SelectNone(s[..|s| - 1], keep);
    }
  }

  /** Selecting with a set that holds every cell of the list keeps the list. */
  lemma {:induction false} SelectAll(s: seq<Cell>, keep: set<Cell>)
    requires forall x :: x in s ==> x in keep
    ensures Select(s, keep) == s
    decreases |s|
  {
    if s != [] {
      SelectAll(s[..|s| - 1], keep);
      assert s[|s| - 1] in s;
    }
  }

  /** Excluding an empty id set keeps the whole list. */
  lemma {:induction false} ExcludingNone(s: seq<Student>, ids: set<Id>)
    requires ids == {}
    ensures Excluding(s, ids) == s
    decreases |s|
  {
    if s != [] {
      ExcludingNone(s[1..], ids);
    }
  }

  /** A reconciled assignment, all student ids being truthy, is its own
      carry-over. */
  lemma CarryReconciled(seats: Seats, rows: int, cols: int, mask: set<Cell>, students: seq<Student>)
    requires IdsNonEmpty(students)
    ensures var r := Reconcile(seats, rows, cols, mask, students); Carry(r, mask) == r
  {
    var r := Reconcile(seats, rows, cols, mask, students);
    ReconcileOnSeats(seats, rows, cols, mask, students);
    ReconcileInvariants(seats, rows, cols, mask, students);
    assert forall x :: x in Carry(r, mask) <==> x in r;
  }

  /** When the free seats sufficed, the reconciled assignment seats every
      student. */
  lemma ReconcileSeatsAll(seats: Seats, rows: int, cols: int, mask: set<Cell>, students: seq<Student>)
    requires var C := Carry(seats, mask);
      |Unseated(students, C)| <= |FreeCells(rows, cols, mask, C)|
    ensures Unseated(students, Reconcile(seats, rows, cols, mask, students)) == []
  {
    var C := Carry(seats, mask);
    var F := FreeCells(rows, cols, mask, C);
    var R := Unseated(students, C);
    var r := Reconcile(seats, rows, cols, mask, students);
    ReconcileKeeps(seats, rows, cols, mask, students);
    ReconcileFill(seats, rows, cols, mask, students);
    ExcludingSpec(students, C.Values);
    forall s | s in students
      ensures s.id in r.Values
    {
      if s.id in C.Values {
        var x :| x in C && C[x] == s.id;
        assert r[x] == s.id;
      } else {
        assert s in R;
        var i :| 0 <= i < |R| && R[i] == s;
        assert r[F[i]] == s.id;
      }
    }
    ExcludingAll(students, r.Values);
  }

  /** When the students outnumbered the free seats, the reconciled assignment
      leaves no free seat, provided every student id is truthy. */
  lemma ReconcileFillsAll(seats: Seats, rows: int, cols: int, mask: set<Cell>, students: seq<Student>)
    requires var C := Carry(seats, mask);
      |FreeCells(rows, cols, mask, C)| <= |Unseated(students, C)|
    requires IdsNonEmpty(students)
    ensures FreeCells(rows, cols, mask, Reconcile(seats, rows, cols, mask, students)) == []
  {
    var C := Carry(seats, mask);
    var F := FreeCells(rows, cols, mask, C);
    var r := Reconcile(seats, rows, cols, mask, students);
    ReconcileKeeps(seats, rows, cols, mask, students);
    ReconcileFill(seats, rows, cols, mask, students);
    ReconcileInvariants(seats, rows, cols, mask, students);
    FreeCellsShape(rows, cols, mask, C);
    forall x | x in GridCells(rows, cols)
      ensures x !in mask - Occupied(r)
    {
      GridCellsMembership(rows, cols, x);
      if x in mask && x !in C {
        assert x in F;
        var i :| 0 <= i < |F| && F[i] == x;
        assert x in r;
      }
    }
    SelectNone(GridCells(rows, cols), mask - Occupied(r));
  }

  /** Re-running the reconciler on its own output with the same grid changes
      nothing, provided every student id is truthy. Every render re-runs it,
      so a render right after another changes no seat. */
  lemma ReconcileIdempotent(seats: Seats, rows: int, cols: int, mask: set<Cell>, students: seq<Student>)
    requires IdsNonEmpty(students)
    ensures Reconcile(Reconcile(seats, rows, cols, mask, students), rows, cols, mask, students) ==
      Reconcile(seats, rows, cols, mask, students)
  {
    var C := Carry(seats, mask);
    var r := Reconcile(seats, rows, cols, mask, students);
    CarryReconciled(seats, rows, cols, mask, students);
    if |Unseated(students, C)| <= |FreeCells(rows, cols, mask, C)| {
      ReconcileSeatsAll(seats, rows, cols, mask, students);
    } else {
      ReconcileFillsAll(seats, rows, cols, mask, students);
    }
    PlaceSettled(r, rows, cols, mask, students);
  }

  /** With no seat taken, the free cells of a full grid are the whole scan. */
  lemma EmptyFullFree(rows: int, cols: int)
    ensures FreeCells(rows, cols, Mask(rows, cols, Full), map[]) == GridCells(rows, cols)
  {
    var mask := Mask(rows, cols, Full);
    assert mask - Occupied(map[]) == mask by {
      assert Occupied(map[]) == {};
    }
    var G := GridCells(rows, cols);
    forall x | x in G
      ensures x in mask
    {
      MaskShape(rows, cols, Full, x);
      GridCellsMembership(rows, cols, x);
    }
    SelectAll(G, mask);
  }

  /** The scan of a 2 x 3 grid, row by row. */
  lemma TwoByThreeScan()
    ensures GridCells(2, 3) ==
      [Cell(0, 0), Cell(0, 1), Cell(0, 2), Cell(1, 0), Cell(1, 1), Cell(1, 2)]
  {
    assert RowCells(0, 3) == [Cell(0, 0), Cell(0, 1), Cell(0, 2)] by {
      assert RowCells(0, 1) == [Cell(0, 0)];
      assert RowCells(0, 2) == [Cell(0, 0), Cell(0, 1)];
    }
    assert RowCells(1, 3) == [Cell(1, 0), Cell(1, 1), Cell(1, 2)] by {
      assert RowCells(1, 1) == [Cell(1, 0)];
      assert RowCells(1, 2) == [Cell(1, 0), Cell(1, 1)];
    }
    assert GridCells(1, 3) == RowCells(0, 3);
  }

  /** The free cells of an empty 2 x 3 full grid: all six, row by row. */
  lemma TwoByThreeFree()
    ensures FreeCells(2, 3, Mask(2, 3, Full), map[]) ==
      [Cell(0, 0), Cell(0, 1), Cell(0, 2), Cell(1, 0), Cell(1, 1), Cell(1, 2)]
  {
    EmptyFullFree(2, 3);
    TwoByThreeScan();
  }

  /** The reading-order contract: on an empty 2 x 3 full grid, three students
      take the front row from left to right. */
  lemma ReadingOrderExample(a: Student, b: Student, c: Student)
    ensures Reconcile(map[], 2, 3, Mask(2, 3, Full), [a, b, c]) ==
      map[Cell(0, 0) := a.id, Cell(0, 1) := b.id, Cell(0, 2) := c.id]
  {
    var mask := Mask(2, 3, Full);
    var C: Seats := map[];
    var G := [Cell(0, 0), Cell(0, 1), Cell(0, 2), Cell(1, 0), Cell(1, 1), Cell(1, 2)];
    var m1 := map[Cell(0, 0) := a.id];
    var m2 := map[Cell(0, 0) := a.id, Cell(0, 1) := b.id];
    var m3 := map[Cell(0, 0) := a.id, Cell(0, 1) := b.id, Cell(0, 2) := c.id];
    assert Reconcile(map[], 2, 3, mask, [a, b, c]) == Fill(C, G, [a, b, c]) by {
      assert Carry(map[], mask) == C;
      TwoByThreeFree();
      ExcludingNone([a, b, c], C.Values);
    }
    assert Fill(C, G, [a, b, c]) == Fill(m1, G[1..], [b, c]) by {
      assert [a, b, c][1..] == [b, c];
    }
    assert Fill(m1, G[1..], [b, c]) == Fill(m2, G[2..], [c]) by {
      assert G[1..][1..] == G[2..] && [b, c][1..] == [c];
    }
    assert Fill(m2, G[2..], [c]) == m3 by {
      assert G[2..][1..] == G[3..] && [c][1..] == [];
    }
  }

  /** Capacity overflow: with five students of distinct ids and three seats,
      reconciling an empty assignment seats exactly the first three. */
  lemma CapacityOverflow(students: seq<Student>, rows: int, cols: int, mask: set<Cell>)
    requires |students| == 5 && DistinctIds(students)
    requires |SeatCells(rows, cols, mask)| == 3
    ensures |Reconcile(map[], rows, cols, mask, students)| == 3
    ensures forall i :: 0 <= i < 3 ==> students[i].id in Reconcile(map[], rows, cols, mask, students).Values
    ensures forall i :: 3 <= i < 5 ==> students[i].id !in Reconcile(map[], rows, cols, mask, students).Values
  {
    var C: Seats := map[];
    assert Carry(map[], mask) == C;
    assert mask - Occupied(C) == mask;
    var F := FreeCells(rows, cols, mask, C);
    var R := Unseated(students, C);
    ExcludingNone(students, C.Values);
    assert R == students;
    ReconcileFill(map[], rows, cols, mask, students);
    ReconcileSize(map[], rows, cols, mask, students);
    PlaceCapacity(C, rows, cols, mask, students);
    var r := Reconcile(map[], rows, cols, mask, students);
    forall i | 0 <= i < 3
      ensures students[i].id in r.Values
    {
      assert r[F[i]] == R[i].id;
    }
  }

  /** The first pass of applyTemplate: a `for (k in seats)` loop that copies
      every pair whose cell is in the new mask and whose id is truthy. */
  method CarryOver(seats: Seats, mask: set<Cell>) returns (kept: Seats)
    ensures kept == Carry(seats, mask)
  {
    kept := map[];
    var todo := seats.Keys;
    while todo != {}
      invariant todo <= seats.Keys
      invariant kept == map x | x in seats && x !in todo && x in mask && seats[x] != "" :: seats[x]
      decreases |todo|
    {
      var k :| k in todo;
      var sid := seats[k];
      if k in mask && sid != "" {
        kept := kept[k := sid];
      }
      todo := todo - {k};
    }
  }

  /** The nested row/column scan that lists, in reading order, the cells for
      which the scan's condition holds (`keep`). */
  method ScanCells(rows: int, cols: int, keep: set<Cell>) returns (cells: seq<Cell>)
    ensures cells == SeatCells(rows, cols, keep)
  {
    cells := [];
    var r := 0;
    while r < rows
      invariant 0 <= r <= Max(rows, 0)
      invariant cells == Select(GridCells(r, cols), keep)
    {
      var c := 0;
      assert GridCells(r, cols) + RowCells(r, 0) == GridCells(r, cols);
      while c < cols
        invariant 0 <= c <= Max(cols, 0)
        invariant cells == Select(GridCells(r, cols) + RowCells(r, c), keep)
      {
        ghost var seen := GridCells(r, cols) + RowCells(r, c);
        assert GridCells(r, cols) + RowCells(r, c + 1) == seen + [Cell(r, c)];
        if Cell(r, c) in keep {
          cells := cells + [Cell(r, c)];
        }
        c := c + 1;
      }
      r := r + 1;
    }
  }

  /** The pairing loop: `newSeats[cells[i]] = students[i].id` while both lists
      last. */
  method FillSeats(m: Seats, cells: seq<Cell>, ss: seq<Student>) returns (r: Seats)
    ensures r == Fill(m, cells, ss)
  {
    r := m;
    var i := 0;
    while i < |ss| && i < |cells|
      invariant 0 <= i <= Min(|cells|, |ss|)
      invariant Fill(r, cells[i..], ss[i..]) == Fill(m, cells, ss)
    {
      assert cells[i..][1..] == cells[i + 1..];
      assert ss[i..][1..] == ss[i + 1..];
      r := r[cells[i] := ss[i].id];
      i := i + 1;
    }
  }
}
