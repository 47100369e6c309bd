/**
 * The application state and the handlers that change it. `state` holds the
 * grid size, the seat template, the student list, the seat assignment and the
 * seat mask; each handler below is one of the application's state changes,
 * written as the loops and updates the application performs.
 */
module SeatMap {
  import opened Grid
  import opened Roster
  import opened Assignment
  import opened Drag
  import opened Shuffle
  import opened Text
  import opened Csv
  import opened Export

  /** The result of `parseInt(input.value, 10)`. */
  datatype Parsed = NaN | Num(value: int)

  /** The form controls read by buildGrid: the four number inputs and the
      template select. */
  datatype Controls = Controls(rows: Parsed, cols: Parsed, seatSize: Parsed, gap: Parsed, template: string)

  /** `parseInt(...) || d`: NaN and 0 are falsy and give the default. The
      result is the default or the parsed number, and it is truthy whenever
      the default is. */
  function OrDefault(p: Parsed, d: int): (v: int)
    ensures v == d || (p.Num? && v == p.value)
    ensures d != 0 ==> v != 0
    ensures (p.NaN? || p.value == 0) ==> v == d
    ensures p.Num? && p.value != 0 ==> v == p.value
  {
    if p.NaN? || p.value == 0 then d else p.value
  }

  /** `Math.max(lo, Math.min(hi, parseInt(...) || d))`. */
  function ClampInput(p: Parsed, d: int, lo: int, hi: int): (v: int)
    ensures lo <= hi ==> lo <= v <= hi
    ensures lo <= d <= hi && (p.NaN? || p.value == 0) ==> v == d
    ensures p.Num? && p.value != 0 && lo <= p.value <= hi ==> v == p.value
  {
    Clamp(lo, hi, OrDefault(p, d))
  }

  /** `templateSelect.value || 'full'`. */
  function TemplateName(s: string): (t: string)
    ensures t != ""
    ensures s != "" ==> t == s
  {
    if s == "" then "full" else s
  }

  /** Zero rows is falsy and becomes the default of four; a negative count
      becomes one; forty is cut to thirty. */
  lemma RowInputExamples()
    ensures ClampInput(Num(0), 4, 1, 30) == 4
    ensures ClampInput(Num(-3), 4, 1, 30) == 1
    ensures ClampInput(Num(40), 4, 1, 30) == 30
    ensures ClampInput(NaN, 4, 1, 30) == 4
  {
  }

  /** A new id: truthy and not yet used by a student. */
  predicate FreshId(students: seq<Student>, id: Id)
  {
    id != "" && forall i :: 0 <= i < |students| ==> students[i].id != id
  }

  /** The ids handed to an import: fresh and pairwise distinct. */
  predicate FreshIds(students: seq<Student>, ids: seq<Id>)
  {
    (forall i :: 0 <= i < |ids| ==> FreshId(students, ids[i])) &&
    forall i, j :: 0 <= i < j < |ids| ==> ids[i] != ids[j]
  }

  /** The students an import appends: `addStudent(name, email)` trims both. */
  function NewStudents(recs: seq<(string, string)>, ids: seq<Id>): (ss: seq<Student>)
    requires |ids| >= |recs|
    ensures |ss| == |recs|
  {
    seq(|recs|, i requires 0 <= i < |recs| => Student(ids[i], Trim(recs[i].0), Trim(recs[i].1)))
  }

  /** Each appended student carries its id and trimmed fields; with fresh,
      pairwise distinct ids the roster keeps distinct, truthy ids. */
  lemma NewStudentsSpec(s: seq<Student>, recs: seq<(string, string)>, ids: seq<Id>)
    requires |ids| >= |recs|
    ensures var ss := NewStudents(recs, ids);
      forall i :: 0 <= i < |ss| ==>
        ss[i].id == ids[i] && Trimmed(ss[i].name) && Trimmed(ss[i].email)
    ensures FreshIds(s, ids[..|recs|]) && DistinctIds(s) && IdsNonEmpty(s) ==>
      DistinctIds(s + NewStudents(recs, ids)) && IdsNonEmpty(s + NewStudents(recs, ids))
  {
    var ss := NewStudents(recs, ids);
    forall i | 0 <= i < |ss|
      ensures Trimmed(ss[i].name) && Trimmed(ss[i].email)
    {
      TrimSpec(recs[i].0);
      TrimSpec(recs[i].1);
    }
    if FreshIds(s, ids[..|recs|]) && DistinctIds(s) && IdsNonEmpty(s) {
      var t := s + ss;
      forall i, j | 0 <= i < j < |t|
        ensures t[i].id != t[j].id
      {
        if j >= |s| {
          assert t[j].id == ids[..|recs|][j - |s|];
          if i >= |s| {
            assert t[i].id == ids[..|recs|][i - |s|];
          }
        }
      }
      forall i | 0 <= i < |t|
        ensures t[i].id != ""
      {
        if i >= |s| {
          assert t[i].id == ids[..|recs|][i - |s|];
        }
      }
    }
  }

  /** The next id of an import is fresh for the list built so far. */
  lemma NextIdFresh(s0: seq<Student>, recs: seq<(string, string)>, ids: seq<Id>, i: int)
    requires |ids| == |recs| && FreshIds(s0, ids) && 0 <= i < |recs|
    ensures FreshId(s0 + NewStudents(recs[..i], ids[..i]), ids[i])
  {
    var s := s0 + NewStudents(recs[..i], ids[..i]);
    forall j | 0 <= j < |s|
      ensures s[j].id != ids[i]
    {
      if j >= |s0| {
        assert s[j].id == ids[j - |s0|];
      }
    }
  }

  /** One more record appends one more student. */
  lemma NewStudentsSnoc(recs: seq<(string, string)>, ids: seq<Id>, i: int)
    requires |ids| == |recs| && 0 <= i < |recs|
    ensures NewStudents(recs[..i + 1], ids[..i + 1]) ==
      NewStudents(recs[..i], ids[..i]) + [Student(ids[i], Trim(recs[i].0), Trim(recs[i].1))]
  {
  }

  /** The delete handler's loop over the seats: every entry holding `id`
      goes, every other entry stays. */
  function Unassign(m: Seats, id: Id): Seats
  {
    map x | x in m && m[x] != id :: m[x]
  }

  /** Deleting a student's entries removes exactly the entries holding that
      id and keeps every other entry unchanged; the id is seated nowhere
      afterwards; an assignment stays on seats, injective and free of empty
      ids, and an injective one loses at most one entry. */
  lemma UnassignSpec(m: Seats, id: Id, mask: set<Cell>)
    ensures forall x :: x in Unassign(m, id) <==> x in m && m[x] != id
    ensures forall x :: x in Unassign(m, id) ==> Unassign(m, id)[x] == m[x]
    ensures id !in Unassign(m, id).Values
    ensures OnSeats(m, mask) ==> OnSeats(Unassign(m, id), mask)
    ensures Injective(m) ==> Injective(Unassign(m, id))
    ensures NoBlank(m) ==> NoBlank(Unassign(m, id))
    ensures Injective(m) ==> |Unassign(m, id)| == |m| - (if id in m.Values then 1 else 0)
  {
    var r := Unassign(m, id);
    if Injective(m) {
      if id in m.Values {
        var x :| x in m && m[x] == id;
        assert r.Keys == m.Keys - {x};
      } else {
        assert r.Keys == m.Keys;
      }
    }
  }

  /** A drag that started on a seated student changes the assignment unless
      it is dropped where there is no seat or back onto its own cell. */
  lemma DragStartedEffect(seats: Seats, mask: set<Cell>, from: Cell, to: Cell)
    requires CanStartDrag(mask, seats, from) && Injective(seats)
    ensures Release(seats, mask, from, to) == seats <==> to !in mask || to == from
  {
    if to in mask && to != from {
      var r := Release(seats, mask, from, to);
      assert to in r && r[to] == seats[from];
      if to in seats {
        assert seats[to] != seats[from];
      }
    }
  }

  /** The loop of the delete handler over the keys of the seat map, dropping
      every entry that holds `id`. */
  method ClearSeats(seats: Seats, id: Id) returns (m: Seats)
    ensures m == Unassign(seats, id)
  {
    m := seats;
    var todo := seats.Keys;
    while todo != {}
      invariant todo <= seats.Keys
      invariant m == map x | x in seats && (x in todo || seats[x] != id) :: seats[x]
      decreases |todo|
    {
      var k :| k in todo;
      var next := todo - {k};
      if m[k] == id {
        m := m - {k};
      }
      assert m == map x | x in seats && (x in next || seats[x] != id) :: seats[x];
      todo := next;
    }
  }

  /** The body of pointerup once the target cell is known: reject a target
      without a seat, an empty source or the source itself; otherwise move or
      swap. */
  method Drop(seats: Seats, mask: set<Cell>, from: Cell, dest: Cell) returns (m: Seats)
    ensures m == Release(seats, mask, from, dest)
  {
    m := seats;
    if dest !in mask {
      return;
    }
    var a := if from in seats then seats[from] else "";
    var b := if dest in seats then seats[dest] else "";
    if a == "" {
      return;
    }
    if from == dest {
      return;
    }
    m := m[dest := a];
    if b == "" {
      m := m - {from};
    } else {
      m := m[from := b];
    }
  }

  /** The export row of one seat cell: its key, its coordinates, and the
      name and email of the student whose id it holds, or empty fields. */
  method ExportCell(x: Cell, seats: Seats, students: seq<Student>) returns (row: seq<string>)
    ensures row == ExportRow(x, seats, students)
  {
    var name, email := "", "";
    if x in seats && seats[x] != "" {
      var found := FindStudent(students, seats[x]);
      if found.Some? {
        name, email := found.value.name, found.value.email;
      }
    }
    row := [CellKey(x), NumberText(x.r), NumberText(x.c), name, email];
  }

  /** One more scanned cell appends its export row exactly when it is a seat. */
  lemma ScanStep(seen: seq<Cell>, x: Cell, mask: set<Cell>, seats: Seats, students: seq<Student>)
    ensures SeatRows(Select(seen + [x], mask), seats, students) ==
      SeatRows(Select(seen, mask), seats, students) +
      (if x in mask then [ExportRow(x, seats, students)] else [])
  {
    SelectSnoc(seen, x, mask);
    if x in mask {
      SeatRowsAppend(Select(seen, mask), x, seats, students);
    }
  }

  /** One row of the export handler's scan: the seat cells of row `r`, left
      to right, each appended to the rows built so far. */
  method ScanRow(r: int, cols: int, mask: set<Cell>, seats: Seats, students: seq<Student>,
                 prefix: seq<seq<string>>) returns (out: seq<seq<string>>)
    requires prefix == [Header] + SeatRows(Select(GridCells(r, cols), mask), seats, students)
    ensures out == [Header] + SeatRows(Select(GridCells(r, cols) + RowCells(r, cols), mask), seats, students)
  {
    out := prefix;
    var c := 0;
    ghost var seen := GridCells(r, cols);
    assert seen + RowCells(r, 0) == seen;
    while c < cols
      invariant 0 <= c <= Max(cols, 0)
      invariant seen == GridCells(r, cols) + RowCells(r, c)
      invariant out == [Header] + SeatRows(Select(seen, mask), seats, students)
    {
      var x := Cell(r, c);
      assert GridCells(r, cols) + RowCells(r, c + 1) == seen + [x];
      ScanStep(seen, x, mask, seats, students);
      if x in mask {
        var row := ExportCell(x, seats, students);
        out := out + [row];
      }
      seen := seen + [x];
      c := c + 1;
    }
    assert RowCells(r, c) == RowCells(r, cols);
  }

  /** The export handler's scan: the header, then one row per seat cell in
      reading order. */
  method ExportTable(rows: int, cols: int, mask: set<Cell>, seats: Seats, students: seq<Student>)
    returns (out: seq<seq<string>>)
    ensures out == ExportRows(rows, cols, mask, seats, students)
  {
    out := [Header];
    var r := 0;
    while r < rows
      invariant 0 <= r <= Max(rows, 0)
      invariant out == [Header] + SeatRows(Select(GridCells(r, cols), mask), seats, students)
    {
      out := ScanRow(r, cols, mask, seats, students, out);
      assert GridCells(r + 1, cols) == GridCells(r, cols) + RowCells(r, cols);
      r := r + 1;
    }
    assert GridCells(r, cols) == GridCells(rows, cols);
    assert out == [Header] + SeatRows(SeatCells(rows, cols, mask), seats, students);
  }

  class SeatMap {
    var rows: int
    var cols: int
    var seatSize: int
    var gap: int
    var template: string
    var students: seq<Student>
    var seats: Seats
    var seatMask: set<Cell>

    /** The sizes as buildGrid leaves them. */
    predicate Clamped()
      reads this
    {
      1 <= rows <= 30 && 1 <= cols <= 30 && 30 <= seatSize <= 120 && 0 <= gap <= 40
    }

    /** The invariants of the seat engine: every assigned cell is a seat, no
        student sits twice, no entry holds an empty id, and student ids are
        distinct and truthy. */
    predicate Consistent()
      reads this
    {
      OnSeats(seats, seatMask) && Injective(seats) && NoBlank(seats) &&
      DistinctIds(students) && IdsNonEmpty(students)
    }

    /** The initial state, then the initial `applyTemplate` and `buildGrid`. */
    constructor (ui: Controls)
      ensures rows == ClampInput(ui.rows, 4, 1, 30) && cols == ClampInput(ui.cols, 6, 1, 30)
      ensures seatSize == ClampInput(ui.seatSize, 64, 30, 120) && gap == ClampInput(ui.gap, 16, 0, 40)
      ensures template == TemplateName(ui.template)
      ensures students == [] && seats == map[]
      ensures seatMask == Mask(rows, cols, TemplateOf(template))
      ensures Clamped() && Consistent()
    {
      rows := OrDefault(ui.rows, 4);
      cols := OrDefault(ui.cols, 6);
      seatSize := OrDefault(ui.seatSize, 64);
      gap := OrDefault(ui.gap, 16);
      template := TemplateName(ui.template);
      students := [];
      seats := map[];
      seatMask := {};
      new;
      ReconcileEmpty(rows, cols, Mask(rows, cols, TemplateOf(template)));
      ApplyTemplate(template, true);
      assert seats == map[] && students == [];
      BuildGrid(ui);
      ReconcileEmpty(rows, cols, seatMask);
    }

    /** applyTemplate: the new mask of the named template, and either the
        reconciled assignment or, without keepAssignments, none at all. */
    method ApplyTemplate(name: string, keep: bool)
      modifies this`seatMask, this`seats
      ensures seatMask == Mask(rows, cols, TemplateOf(name))
      ensures keep ==> seats == Reconcile(old(seats), rows, cols, seatMask, students)
      ensures !keep ==> seats == map[]
      ensures old(Injective(seats)) && DistinctIds(students) && IdsNonEmpty(students) ==> Consistent()
    {
      var mask := BuildMask(rows, cols, TemplateOf(name));
      if keep {
        var kept := CarryOver(seats, mask);
        var free := ScanCells(rows, cols, mask - Occupied(kept));
        var remaining := Excluding(students, kept.Values);
        var newSeats := FillSeats(kept, free, remaining);
        ReconcileOnSeats(seats, rows, cols, mask, students);
        ReconcileInvariants(seats, rows, cols, mask, students);
        seatMask := mask;
        seats := newSeats;
      } else {
        seatMask := mask;
        seats := map[];
      }
    }

    /** The first lines of buildGrid: read the controls into the state,
        clamping the four sizes and defaulting the template name. */
    method ReadControls(ui: Controls)
      modifies this`rows, this`cols, this`seatSize, this`gap, this`template
      ensures rows == ClampInput(ui.rows, 4, 1, 30) && cols == ClampInput(ui.cols, 6, 1, 30)
      ensures seatSize == ClampInput(ui.seatSize, 64, 30, 120) && gap == ClampInput(ui.gap, 16, 0, 40)
      ensures template == TemplateName(ui.template)
      ensures Clamped()
    {
      rows := ClampInput(ui.rows, 4, 1, 30);
      cols := ClampInput(ui.cols, 6, 1, 30);
      seatSize := ClampInput(ui.seatSize, 64, 30, 120);
      gap := ClampInput(ui.gap, 16, 0, 40);
      template := TemplateName(ui.template);
    }

    /** buildGrid's state changes: read the controls, then reapply the
        template keeping the assignment. */
    method BuildGrid(ui: Controls)
      modifies this`rows, this`cols, this`seatSize, this`gap, this`template, this`seatMask, this`seats
      ensures rows == ClampInput(ui.rows, 4, 1, 30) && cols == ClampInput(ui.cols, 6, 1, 30)
      ensures seatSize == ClampInput(ui.seatSize, 64, 30, 120) && gap == ClampInput(ui.gap, 16, 0, 40)
      ensures template == TemplateName(ui.template)
      ensures seatMask == Mask(rows, cols, TemplateOf(template))
      ensures seats == Reconcile(old(seats), rows, cols, seatMask, students)
      ensures Clamped()
      ensures old(Injective(seats)) && DistinctIds(students) && IdsNonEmpty(students) ==> Consistent()
    {
      ReadControls(ui);
      ApplyTemplate(template, true);
    }

    /** addStudent with a fresh id: the trimmed record goes to the end of the
        list. */
    method AddStudent(id: Id, name: string, email: string)
      requires FreshId(students, id)
      modifies this`students
      ensures students == old(students) + [Student(id, Trim(name), Trim(email))]
      ensures old(Consistent()) ==> Consistent()
    {
      students := students + [Student(id, Trim(name), Trim(email))];
    }

    /** assignUnplacedStudents: the gap filler. */
    method AssignUnplaced()
      modifies this`seats
      ensures seats == Place(old(seats), rows, cols, seatMask, students)
      ensures old(Consistent()) ==> Consistent()
    {
      var unplaced := Excluding(students, seats.Values);
      PlaceInvariants(seats, rows, cols, seatMask, students);
      if |unplaced| == 0 {
        return;
      }
      var free := ScanCells(rows, cols, seatMask - Occupied(seats));
      seats := FillSeats(seats, free, unplaced);
    }

    /** The Add button: a name that trims to nothing is refused; otherwise
        the student is added and seated if a seat is free. */
    method AddFromInput(id: Id, input: string)
      requires FreshId(students, id)
      modifies this`students, this`seats
      ensures Trim(input) == "" ==> students == old(students) && seats == old(seats)
      ensures Trim(input) != "" ==> students == old(students) + [Student(id, Trim(input), "")]
      ensures Trim(input) != "" ==> seats == Place(old(seats), rows, cols, seatMask, students)
      ensures old(Consistent()) ==> Consistent()
    {
      var name := Trim(input);
      if name == "" {
        return;
      }
      TrimIdempotent(input);
      AddStudent(id, name, "");
      AssignUnplaced();
    }

    /** The client-side CSV import: one student per non-blank line, then the
        gap filler. */
    method ImportCsv(text: string, ids: seq<Id>)
      requires |ids| == |ImportRecords(text)| && FreshIds(students, ids)
      modifies this`students, this`seats
      ensures students == old(students) + NewStudents(ImportRecords(text), ids)
      ensures seats == Place(old(seats), rows, cols, seatMask, students)
      ensures old(Consistent()) ==> Consistent()
    {
      var recs := ImportRecords(text);
      AddRecords(recs, ids);
      AssignUnplaced();
    }

    /** The import's `for (const line of lines)` loop: one `addStudent` per
        record, in file order. */
    method AddRecords(recs: seq<(string, string)>, ids: seq<Id>)
      requires |ids| == |recs| && FreshIds(students, ids)
      modifies this`students
      ensures students == old(students) + NewStudents(recs, ids)
      ensures old(Consistent()) ==> Consistent()
    {
      ghost var s0 := students;
      ghost var c0 := Consistent();
      var i := 0;
      while i < |recs|
        invariant 0 <= i <= |recs|
        invariant students == s0 + NewStudents(recs[..i], ids[..i])
        invariant c0 ==> Consistent()
      {
        NextIdFresh(s0, recs, ids, i);
        AddStudent(ids[i], recs[i].0, recs[i].1);
        NewStudentsSnoc(recs, ids, i);
        i := i + 1;
      }
      assert recs[..i] == recs && ids[..i] == ids;
    }

    /** The randomize handler: shuffle the seat cells with the given picks,
        then pair the students with them in list order. */
    method Randomize(picks: seq<int>)
      requires ValidPicks(picks, |SeatCells(rows, cols, seatMask)|)
      modifies this`seats
      ensures seats == RandomSeats(rows, cols, seatMask, students, picks)
      ensures old(Consistent()) ==> Consistent()
    {
      var keys := ScanCells(rows, cols, seatMask);
      var a := new Cell[|keys|](i requires 0 <= i < |keys| => keys[i]);
      assert a[..] == keys;
      ShuffleInPlace(a, picks);
      seats := map[];
      var placed := FillSeats(seats, a[..], students);
      seats := placed;
      RandomSeatsSpec(rows, cols, seatMask, students, picks);
      if IdsNonEmpty(students) {
        RandomSeatsNoBlank(rows, cols, seatMask, students, picks);
      }
    }

    /** The delete handler: the student leaves the list and every seat
        holding its id is emptied. */
    method DeleteStudent(id: Id)
      modifies this`students, this`seats
      ensures students == Excluding(old(students), {id})
      ensures seats == Unassign(old(seats), id)
      ensures old(Consistent()) ==> Consistent()
    {
      ExcludingSpec(students, {id});
      UnassignSpec(seats, id, seatMask);
      students := Excluding(students, {id});
      seats := ClearSeats(seats, id);
    }

    /** The Clear button: only once confirmed, everything is emptied and the
        template is reapplied without assignments. */
    method Clear(confirmed: bool)
      modifies this`students, this`seats, this`seatMask
      ensures !confirmed ==> students == old(students) && seats == old(seats) && seatMask == old(seatMask)
      ensures confirmed ==> students == [] && seats == map[]
      ensures confirmed ==> seatMask == Mask(rows, cols, TemplateOf(template))
      ensures old(Consistent()) ==> Consistent()
    {
      if !confirmed {
        return;
      }
      students := [];
      seats := map[];
      seatMask := {};
      ApplyTemplate(template, false);
    }

    /** pointerup: resolve the drop of the seat dragged from `from` whose
        top-left corner was released at (left, top). */
    method ReleaseDrag(from: Cell, left: int, top: int)
      requires Clamped()
      modifies this`seats
      ensures seats == Release(old(seats), seatMask, from, Target(rows, cols, seatSize + gap, left, top))
      ensures old(Consistent()) ==> Consistent()
    {
      var cellW := seatSize + gap;
      var c := RoundDiv(left, cellW);
      var r := RoundDiv(top, cellW);
      var dest := Cell(Clamp(0, rows - 1, r), Clamp(0, cols - 1, c));
      ReleasePreserves(seats, seatMask, from, dest);
      seats := Drop(seats, seatMask, from, dest);
    }
  }
}
