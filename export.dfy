/**
 * The CSV export of the seat map: a header, then one row per seat cell in
 * reading order holding the seat key, the row, the column, and the name and
 * email of the student on it (empty when the seat is free or its id names no
 * student).
 */
module Export {
  import opened Grid
  import opened Roster
  import opened Assignment
  import opened Csv

  /** The decimal digits of `n`, as `String(n)` writes a non-negative integer. */
  function Decimal(n: nat): (s: string)
    ensures |s| >= 1 && (|s| == 1 <==> n < 10)
    ensures forall i :: 0 <= i < |s| ==> '0' <= s[i] <= '9'
    decreases n
  {
    if n < 10 then [('0' as int + n) as char]
    else Decimal(n / 10) + [('0' as int + n % 10) as char]
  }

  /** `String(n)` for any integer. */
  function NumberText(n: int): string
  {
    if n < 0 then "-" + Decimal(-n) else Decimal(n)
  }

  /** Different numbers are written differently. */
  lemma {:induction false} DecimalInjective(a: nat, b: nat)
    requires Decimal(a) == Decimal(b)
    ensures a == b
    decreases a
  {
    if a >= 10 {
      var s := Decimal(a);
      assert s[..|s| - 1] == Decimal(a / 10);
      assert s[..|s| - 1] == Decimal(b / 10);
      DecimalInjective(a / 10, b / 10);
      assert s[|s| - 1] == ('0' as int + a % 10) as char == ('0' as int + b % 10) as char;
    }
  }

  /** The seat key `${r}_${c}` of a cell. */
  function CellKey(x: Cell): string
  {
    NumberText(x.r) + "_" + NumberText(x.c)
  }

  /** Two cells of the grid never share a key, so a string-keyed map and a
      cell-keyed map hold the same information. */
  lemma CellKeyInjective(x: Cell, y: Cell)
    requires x.r >= 0 && x.c >= 0 && y.r >= 0 && y.c >= 0
    ensures CellKey(x) == CellKey(y) ==> x == y
  {
    if CellKey(x) == CellKey(y) {
      KeysAgree(x, y);
    }
  }

  lemma KeysAgree(x: Cell, y: Cell)
    requires x.r >= 0 && x.c >= 0 && y.r >= 0 && y.c >= 0
    requires CellKey(x) == CellKey(y)
    ensures x == y
  {
    DigitsOnly(x.r);
    DigitsOnly(y.r);
    SplitAtMark(Decimal(x.r), Decimal(x.c), Decimal(y.r), Decimal(y.c));
    DecimalInjective(x.r, y.r);
    DecimalInjective(x.c, y.c);
  }

  lemma DigitsOnly(n: nat)
    ensures '_' !in Decimal(n)
  {
    var s := Decimal(n);
    assert forall i :: 0 <= i < |s| ==> s[i] != '_';
  }

  /** A key splits at its first underscore. */
  lemma SplitAtMark(a: string, b: string, c: string, d: string)
    requires '_' !in a && '_' !in c
    requires a + "_" + b == c + "_" + d
    ensures a == c && b == d
  {
    var s := a + "_" + b;
    assert s == c + "_" + d;
    assert s[|a|] == '_' && s[|c|] == '_';
    assert forall i :: 0 <= i < |a| ==> s[i] == a[i] && a[i] != '_';
    assert forall i :: 0 <= i < |c| ==> s[i] == c[i] && c[i] != '_';
    assert |a| == |c|;
    assert a == s[..|a|] == c;
    assert b == s[|a| + 1..] == d;
  }

  /** `students.find(x => x.id === id)`: the first student with that id. */
  function FindStudent(students: seq<Student>, id: Id): (r: Option<Student>)
    ensures r.Some? ==> r.value in students && r.value.id == id
    ensures r.None? <==> forall i :: 0 <= i < |students| ==> students[i].id != id
    ensures r.Some? ==>
      exists i :: 0 <= i < |students| && students[i] == r.value &&
                  forall j :: 0 <= j < i ==> students[j].id != id
    decreases |students|
  {
    if students == [] then None
    else if students[0].id == id then Some(students[0])
    else FindStudent(students[1..], id)
  }

  /** Under distinct ids, the student found is the one with that id. */
  lemma FindUnique(students: seq<Student>, k: int)
    requires DistinctIds(students) && 0 <= k < |students|
    ensures FindStudent(students, students[k].id) == Some(students[k])
  {
    var r := FindStudent(students, students[k].id);
    var j :| 0 <= j < |students| && students[j] == r.value;
  }

  /** The name and email exported for a cell: the student's when the seat
      holds a truthy id that a student has, empty otherwise. */
  function Occupant(x: Cell, seats: Seats, students: seq<Student>): (string, string)
  {
    if x in seats && seats[x] != "" then
      match FindStudent(students, seats[x])
      case Some(s) => (s.name, s.email)
      case None => ("", "")
    else ("", "")
  }

  /** `[k, r, c, s.name || '', s.email || '']`. */
  function ExportRow(x: Cell, seats: Seats, students: seq<Student>): seq<string>
  {
    [CellKey(x), NumberText(x.r), NumberText(x.c), Occupant(x, seats, students).0, Occupant(x, seats, students).1]
  }

  /** One export row per cell, in the order of `cells`. */
  function SeatRows(cells: seq<Cell>, seats: Seats, students: seq<Student>): seq<seq<string>>
  {
    seq(|cells|, i requires 0 <= i < |cells| => ExportRow(cells[i], seats, students))
  }

  const Header: seq<string> := ["seatKey", "row", "col", "name", "email"]

  /** The rows of the exported file. */
  function ExportRows(rows: int, cols: int, mask: set<Cell>, seats: Seats, students: seq<Student>): seq<seq<string>>
  {
    [Header] + SeatRows(SeatCells(rows, cols, mask), seats, students)
  }

  lemma SeatRowsAppend(cells: seq<Cell>, x: Cell, seats: Seats, students: seq<Student>)
    ensures SeatRows(cells + [x], seats, students) == SeatRows(cells, seats, students) + [ExportRow(x, seats, students)]
  {
  }

  /** The exported file. */
  function ExportCsv(rows: int, cols: int, mask: set<Cell>, seats: Seats, students: seq<Student>): string
  {
    CsvText(ExportRows(rows, cols, mask, seats, students))
  }

  /** The export has one row per seat cell after the header, in reading
      order, each with the key and coordinates of its cell. */
  lemma ExportShape(rows: int, cols: int, mask: set<Cell>, seats: Seats, students: seq<Student>)
    ensures var out := ExportRows(rows, cols, mask, seats, students);
      var cells := SeatCells(rows, cols, mask);
      |out| == |cells| + 1 && out[0] == Header &&
      forall i :: 0 <= i < |cells| ==>
        0 <= cells[i].r < rows && 0 <= cells[i].c < cols && cells[i] in mask &&
        |out[i + 1]| == 5 && out[i + 1][0] == CellKey(cells[i]) &&
        out[i + 1][1] == Decimal(cells[i].r) && out[i + 1][2] == Decimal(cells[i].c)
  {
    SeatCellsShape(rows, cols, mask);
  }

  /** No seat key appears twice in the export. */
  lemma ExportKeysDistinct(rows: int, cols: int, mask: set<Cell>, seats: Seats, students: seq<Student>)
    ensures var out := ExportRows(rows, cols, mask, seats, students);
      forall i, j :: 1 <= i < j < |out| ==> out[i][0] != out[j][0]
  {
    var cells := SeatCells(rows, cols, mask);
    var body := SeatRows(cells, seats, students);
    assert NoDuplicates(cells) && forall x :: x in cells ==> x.r >= 0 && x.c >= 0 by {
      SeatCellsShape(rows, cols, mask);
    }
    SeatRowsKeysDistinct(cells, seats, students);
    assert ExportRows(rows, cols, mask, seats, students) == [Header] + body;
  }

  /** Rows exported for distinct cells of the grid carry distinct keys. */
  lemma SeatRowsKeysDistinct(cells: seq<Cell>, seats: Seats, students: seq<Student>)
    requires NoDuplicates(cells)
    requires forall x :: x in cells ==> x.r >= 0 && x.c >= 0
    ensures var body := SeatRows(cells, seats, students);
      forall i, j :: 0 <= i < j < |body| ==> body[i][0] != body[j][0]
  {
    var body := SeatRows(cells, seats, students);
    forall i, j | 0 <= i < j < |body|
      ensures body[i][0] != body[j][0]
    {
      assert cells[i] in cells && cells[j] in cells;
      CellKeyInjective(cells[i], cells[j]);
    }
  }

  /** A free seat, or one whose id names no student, exports an empty name
      and email. */
  lemma ExportFreeSeat(rows: int, cols: int, mask: set<Cell>, seats: Seats, students: seq<Student>, i: int)
    requires 0 <= i < |SeatCells(rows, cols, mask)|
    requires var x := SeatCells(rows, cols, mask)[i];
      x !in Occupied(seats) || (forall k :: 0 <= k < |students| ==> students[k].id != seats[x])
    ensures ExportRows(rows, cols, mask, seats, students)[i + 1][3] == ""
    ensures ExportRows(rows, cols, mask, seats, students)[i + 1][4] == ""
  {
    SeatCellsShape(rows, cols, mask);
  }

  /** A seat holding a student's id exports that student's name and email,
      ids being distinct. */
  lemma ExportOccupant(rows: int, cols: int, mask: set<Cell>, seats: Seats, students: seq<Student>, i: int, k: int)
    requires DistinctIds(students)
    requires 0 <= i < |SeatCells(rows, cols, mask)| && 0 <= k < |students|
    requires var x := SeatCells(rows, cols, mask)[i];
      x in seats && seats[x] == students[k].id && students[k].id != ""
    ensures ExportRows(rows, cols, mask, seats, students)[i + 1][3] == students[k].name
    ensures ExportRows(rows, cols, mask, seats, students)[i + 1][4] == students[k].email
  {
    SeatCellsShape(rows, cols, mask);
    FindUnique(students, k);
  }

  /** The exported file reads back, under the RFC 4180 reading, as exactly
      its rows. */
  lemma ExportParses(rows: int, cols: int, mask: set<Cell>, seats: Seats, students: seq<Student>)
    ensures ParseCsv(ExportCsv(rows, cols, mask, seats, students)) ==
      Some(ExportRows(rows, cols, mask, seats, students))
  {
    var out := ExportRows(rows, cols, mask, seats, students);
    forall i | 0 <= i < |out|
      ensures |out[i]| >= 1
    {
    }
    CsvRoundTrip(out);
  }
}
