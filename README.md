# Seat map: the seat-assignment engine

This project models the seat-assignment engine of the classroom seat-map
application (`app.js`). The engine keeps a map from seat cells `(row, col)`
to student ids consistent while several things change:

- the grid is resized or given another template (`applyTemplate`, called
  with `keepAssignments` on every `buildGrid`);
- students are added (the Add button, the client CSV import) or deleted;
- the seats are randomised (Fisher–Yates shuffle, then pairing);
- a seated student is dragged to another seat (move or swap).

It also models the small serialisers the application uses: the CSV import's
line and field splitting, the CSV export's quoting and the seat key
`${r}_${c}`, and `escapeHtml`.

Layout:

- `grid.dfy` (`Grid`): cells, the row-major scan, and the three templates.
- `roster.dfy` (`Roster`): students and the order-preserving `filter`.
- `assignment.dfy` (`Assignment`): the assignment map, the reconciler, the
  gap filler, and their loops as methods.
- `drag.dfy` (`Drag`): pixel-to-cell rounding and clamping, and the release
  resolution.
- `shuffle.dfy` (`Shuffle`): the in-place shuffle and the random placement.
- `text.dfy` (`Text`): JavaScript `trim`, `split` and `join`.
- `csv.dfy` (`Csv`): the CSV import and the RFC 4180 quoting of the export.
- `html.dfy` (`Html`): `escapeHtml`.
- `export.dfy` (`Export`): the rows of the CSV export.
- `seatmap.dfy` (`SeatMap`): the `state` object as a class. Each handler is a
  method over its fields, with the invariant `Consistent()`: every key is a
  seat, the map is injective, no entry is empty, and student ids are
  distinct and non-empty.

Three points where the code is narrower or looser than one might expect;
the model follows the code:

- Every seated id naming a current student is not guaranteed. The
  reconciler does not check it. After a load, ids that name no student
  survive, and the export then writes empty name and email fields for them
  (`Export.ExportFreeSeat`). `Consistent()` therefore does not include this
  property.
- The reconciled map is not injective in general. The code keeps it
  injective when the old map was injective and the student ids are
  distinct; otherwise two cells can share an id. The model states it under
  exactly those conditions.
- A key whose entry is an empty string counts as free, both in the
  reconciler (`!newSeats[k]`) and in the gap filler (`!state.seats[k]`).
  The model keeps that.

## Model

| member | source | states |
|---|---|---|
| Grid.TemplateOf | app.js:59-73 | "u" and "front-rows" select their layouts; "full" and every other name select the full grid |
| Grid.MaskShape | app.js:56-73 | the mask template by template, for any number of rows: full is the whole rectangle; U is the left column, right column and last row; front-rows is rows below max(1, min(rows, 2)) |
| Grid.MaskInsideGrid | app.js:56-73 | for rows >= 1 every seat of every template is inside the grid |
| Grid.UnknownTemplateIsFull | app.js:70-73 | an unknown template name gives the same mask as "full" |
| Grid.FrontRowsOnEmptyGrid | app.js:68-69 | with zero rows the front-rows template still marks row 0, so the mask then leaves the grid |
| Grid.ThreeByThreeU | app.js:61-65 | the U mask of a 3 x 3 grid is all cells except the top middle and the centre |
| Grid.BuildMask | app.js:56-73 | the nested template loops build exactly the mask of the template |
| Grid.RowCellsShape | app.js:97 | the inner loop visits (r, 0) .. (r, n-1) in order |
| Grid.GridCellsMembership | app.js:97 | the nested scan visits exactly the cells of [0, rows) x [0, cols) |
| Grid.GridCellsRowMajor | app.js:97 | the nested scan visits cells in strictly increasing reading order |
| Grid.SelectMembership | app.js:99 | the cells the scan collects are exactly the scanned cells that satisfy the condition |
| Grid.SelectRowMajor | app.js:96-100 | collecting cells during the scan keeps reading order |
| Grid.SeatCellsShape | app.js:383-387 | the seat cells are listed in reading order, each once, and are exactly the mask cells inside the grid |
| Roster.ExcludingSpec | app.js:102-103 | `filter` keeps every student whose id is outside the set exactly as many times as it occurs, drops every other, in list order, and keeps ids distinct and non-empty |
| Roster.ExcludingCount | app.js:102-103 | each record outside the set keeps its number of occurrences; each record inside it has none |
| Roster.ExcludingSubsequence | app.js:102-103 | the filtered list is a subsequence of the list |
| Roster.ExcludingDistinct | app.js:102-103 | filtering keeps ids distinct |
| Roster.WithoutStudent | app.js:221 | deleting a student drops every record with that id and keeps every other record as many times as it occurred, in order; with distinct ids the list shrinks by one exactly when the id was present |
| Roster.ExcludingLength | app.js:221 | with distinct ids, removing one id shortens the list by one if the id was present and by zero otherwise |
| Assignment.FillSpec | app.js:104-106 | the pairing loop seats ss[i] on cells[i] for every i < min(len cells, len ss), adds no other key and changes no other entry |
| Assignment.FillInjective | app.js:104-106 | pairing students with distinct ids that are not yet seated keeps the map injective |
| Assignment.SeatCount | app.js:383-387 | the seat list has exactly as many entries as there are seats inside the grid |
| Assignment.FreeCellsShape | app.js:96-100 | the free cells are the unoccupied seats inside the grid, in reading order, each once |
| Assignment.PlaceKeeps | app.js:365-379 | the gap filler removes no key, never changes an entry that holds a student, and writes only to free seats inside the grid |
| Assignment.PlaceOrder | app.js:369-378 | the gap filler seats the first k unplaced students, in list order, on the first k free seats, in reading order |
| Assignment.FillValues | app.js:104-106 | every value after pairing is either the old value or one of the ids written |
| Assignment.PlaceCapacity | app.js:376-378 | with distinct ids, the unplaced students beyond the free capacity stay unseated |
| Assignment.PlaceInvariants | app.js:365-379 | the gap filler keeps the map on seats, keeps it injective under distinct ids, and leaves no empty entry when ids are truthy |
| Assignment.PlaceInjective | app.js:369-378 | with an injective map and distinct ids the gap filler keeps the map injective |
| Assignment.PlaceNoBlank | app.js:369-378 | with no empty entry and truthy ids the gap filler writes no empty entry |
| Assignment.PlaceSettled | app.js:368 | with nobody unplaced or no free seat, the gap filler changes nothing |
| Assignment.ReconcileOnSeats | app.js:87-108 | after applyTemplate with keepAssignments every key is a seat of the new mask |
| Assignment.ReconcileKeeps | app.js:88-94 | every old pair whose cell is still a seat and whose id is truthy is kept unchanged; every other key is a free seat |
| Assignment.ReconcileFill | app.js:95-106 | after the carried pairs, the first k remaining students in list order take the first k free seats in reading order |
| Assignment.ReconcileSize | app.js:87-106 | the result has exactly (number carried) + min(remaining, free) entries |
| Assignment.ReconcileInvariants | app.js:87-108 | the reconciled map is injective when the old one was and ids are distinct, and has no empty entry when ids are truthy |
| Assignment.ReconcileEmpty | app.js:688 | with no students and no seats taken, reconciling gives the empty map |
| Assignment.CarryReconciled | app.js:89-94 | with truthy ids, a reconciled map carries over entirely into the same mask |
| Assignment.ReconcileSeatsAll | app.js:95-106 | when the free seats suffice, the reconciler leaves no student unseated |
| Assignment.ReconcileFillsAll | app.js:95-106 | when students outnumber the free seats and ids are truthy, the reconciler leaves no seat free |
| Assignment.ReconcileIdempotent | app.js:125 | with truthy ids, re-running the reconciler on its own output with the same grid changes nothing, so back-to-back renders agree |
| Assignment.EmptyFullFree | app.js:96-100 | with no seat taken, the free cells of a full grid are every cell of the scan, in scan order |
| Assignment.TwoByThreeScan | app.js:97 | the scan of a 2 x 3 grid is (0,0), (0,1), (0,2), (1,0), (1,1), (1,2) |
| Assignment.TwoByThreeFree | app.js:96-100 | on an empty 2 x 3 full grid the free cells are all six, row by row |
| Assignment.ReadingOrderExample | app.js:96-106 | three students on an empty 2 x 3 grid take the front row from left to right |
| Assignment.CapacityOverflow | app.js:104-106 | five students and three seats: exactly the first three are seated |
| Assignment.CarryOver | app.js:89-94 | the `for (k in seats)` loop keeps exactly the pairs on a seat with a truthy id |
| Assignment.ScanCells | app.js:96-100 | the nested scan returns the cells satisfying its condition, in reading order |
| Assignment.FillSeats | app.js:104-106 | the pairing loop computes the pairing function |
| Drag.RoundDiv | app.js:289-290 | `Math.round(x / w)` is the integer n with 2nw - w <= 2x < 2nw + w, so halves round up |
| Drag.RoundDivUnique | app.js:289-290 | only one integer satisfies those bounds |
| Drag.Clamp | app.js:291-292 | the clamp lands in [lo, hi], keeps a value already inside it, and sends a value below the range to lo and one above it to hi |
| Drag.Target | app.js:287-293 | the drop cell lies inside a non-empty grid |
| Drag.ShortDragStaysPut | app.js:284-293 | a drag shorter than half a stride each way lands back on its own cell |
| Drag.ReleaseExchanges | app.js:318-326 | an accepted drop exchanges the contents of the source and target and leaves every other cell alone |
| Drag.ReleasePreserves | app.js:296-326 | a drop keeps the map on seats, injective and free of empty ids; without empty ids it keeps the number of entries and the set of seated students |
| Drag.MoveExample | app.js:319-322 | a student dropped onto an empty seat leaves the source empty |
| Drag.SwapExample | app.js:323-326 | two seated students swap seats |
| Drag.RejectionExample | app.js:297-301 | a drop on the centre of a 3 x 3 U layout, which has no seat, changes nothing |
| Shuffle.Swap | app.js:391 | the destructuring swap exchanges positions i and j and leaves the rest |
| Shuffle.SwapPermutes | app.js:391 | a swap permutes the list |
| Shuffle.ShuffledPermutes | app.js:389-392 | the shuffle loop leaves a permutation of its input, with no duplicates when there were none |
| Shuffle.ShuffleInPlace | app.js:389-392 | the in-place loop leaves the array holding the shuffle of its old contents |
| Shuffle.ShuffledSeatsPermute | app.js:383-392 | the shuffled keys are a permutation of the seat cells, each once |
| Shuffle.RandomSeatsSpec | app.js:393-397 | after randomising, exactly min(students, seats) entries exist, student i sits on shuffled cell i, all keys are seats inside the grid, and distinct ids give an injective map |
| Shuffle.RandomSeatsNoBlank | app.js:393-397 | with truthy ids no entry of the random assignment is empty |
| Shuffle.RandomSeatsSettled | app.js:393-399 | the render after randomising leaves the random assignment unchanged |
| Text.TrimStartSpec | app.js:346 | trimStart drops exactly the leading whitespace |
| Text.TrimEndSpec | app.js:346 | trimEnd drops exactly the trailing whitespace |
| Text.TrimSpec | app.js:346 | `trim` returns a slice whose two ends are not whitespace, and everything cut off on either side is whitespace |
| Text.TrimmedFixed | app.js:348 | a string with no whitespace at either end is its own trim |
| Text.TrimIdempotent | app.js:361 | trimming twice is trimming once |
| Text.Split | app.js:348 | splitting yields at least one piece |
| Text.SplitCount | app.js:348 | splitting at a character gives one piece per occurrence of it, plus one |
| Text.JoinSplit | app.js:348 | joining the pieces of a split with the separator gives the text back, and no piece holds the separator |
| Text.SplitJoin | app.js:348 | splitting the join of separator-free pieces gives the pieces back |
| Csv.Lines | app.js:346 | `split(/\r?\n/)` gives one line per line feed plus one, as many as the plain split at line feeds |
| Csv.LinesNoNewline | app.js:346 | no line holds a line feed |
| Csv.ParseLineClean | app.js:348-349 | each line gives a non-empty trimmed name (default "Unnamed") and a trimmed email, neither holding a comma |
| Csv.ImportRecordsClean | app.js:346-350 | every imported record has a non-empty, trimmed, comma-free and line-feed-free name and email |
| Csv.ParseLineRoundTrip | app.js:348-349 | the line `name,email` of clean fields reads back as the pair |
| Csv.ImportRoundTrip | app.js:346-350 | clean pairs written one per line and imported come back unchanged and in order |
| Csv.QuoteAll | app.js:465 | each field is quoted on its own |
| Csv.BodyRoundTrip | app.js:465 | the quote-doubled body followed by a closing quote reads back as the field |
| Csv.FieldRoundTrip | app.js:465 | a quoted field reads back as exactly its text under RFC 4180 |
| Csv.FieldsRoundTrip | app.js:465 | a comma-joined record of quoted fields reads back as its fields |
| Csv.CsvRoundTrip | app.js:465 | the CRLF-joined file reads back as exactly its rows |
| Csv.QuotePlainExample | app.js:465 | "Ann" is written `"Ann"` |
| Csv.QuoteQuoteExample | app.js:465 | `a",` is written `"a"","`: the quote is doubled and the comma kept |
| Html.EntityDecodes | app.js:544 | each entity reads back as its character |
| Html.EscapeRoundTrip | app.js:543-545 | unescaping the escaped text gives the original, so the escape loses nothing |
| Html.EscapeIsSafe | app.js:543-545 | the escaped text holds no `<`, `>`, `"` or `'` |
| Html.EscapePlain | app.js:543-545 | text without the five special characters is left unchanged |
| Html.EscapeExample | app.js:543-545 | `<b>` becomes `&lt;b&gt;` |
| Export.Decimal | app.js:463 | `String(n)` of a natural number is a non-empty string of digits, one digit exactly when n < 10 |
| Export.DecimalInjective | app.js:53 | different numbers are written differently |
| Export.CellKeyInjective | app.js:53 | two cells with non-negative coordinates never share a key `${r}_${c}` |
| Export.FindStudent | app.js:462 | `find` returns the first student with that id, and returns nothing exactly when no student has it |
| Export.FindUnique | app.js:462 | with distinct ids, `find` returns the student with that id |
| Export.SeatRowsAppend | app.js:463 | one more seat cell appends one more row |
| Export.ExportShape | app.js:457-464 | the export is the header and then one row per seat cell in reading order, each with the cell's key, row and column |
| Export.ExportKeysDistinct | app.js:459-463 | no seat key appears twice in the export |
| Export.SeatRowsKeysDistinct | app.js:459-463 | rows exported for distinct cells with non-negative coordinates carry distinct keys |
| Export.ExportFreeSeat | app.js:461-463 | a free seat, or one whose id names no student, exports empty name and email |
| Export.ExportOccupant | app.js:461-463 | a seat holding a student's id exports that student's name and email |
| Export.ExportParses | app.js:465 | the exported file reads back as exactly its rows |
| SeatMap.OrDefault | app.js:41-44 | `parseInt(...) \|\| d` is either the default or the parsed number; NaN and 0 give the default, any other number is kept, and the result is truthy whenever the default is |
| SeatMap.ClampInput | app.js:118-121 | the clamped input lies in [lo, hi]; NaN and 0 give the default; a number inside the range is kept |
| SeatMap.TemplateName | app.js:122 | the template name is never empty, and a non-empty selection is kept |
| SeatMap.RowInputExamples | app.js:118 | rows input 0 or NaN gives 4, -3 gives 1, 40 gives 30 |
| SeatMap.NewStudentsSpec | app.js:359-361 | the i-th appended student has the i-th fresh id and trimmed name and email; with fresh, pairwise distinct ids the roster keeps distinct, truthy ids |
| SeatMap.UnassignSpec | app.js:222 | the delete loop removes exactly the entries holding the id and leaves every other entry unchanged; the map stays on seats, injective and free of empty ids, and an injective map loses at most one entry |
| SeatMap.DragStartedEffect | app.js:245-326 | a drag that starts on a seated student changes the map exactly when it is dropped on a seat other than its own |
| SeatMap.ClearSeats | app.js:222 | the `for..in` delete loop computes the unassignment |
| SeatMap.SeatMap.constructor | app.js:40-49 | the initial state after the first applyTemplate and buildGrid: clamped sizes, no students, no seats taken, the template's mask, and the invariants |
| SeatMap.SeatMap.ApplyTemplate | app.js:56-112 | the new mask, and either the reconciled map or the empty map; the invariants are restored |
| SeatMap.SeatMap.ReadControls | app.js:118-122 | the four clamped sizes and the defaulted template name |
| SeatMap.SeatMap.BuildGrid | app.js:116-125 | the controls are clamped and the template is reapplied keeping assignments; the invariants are restored |
| SeatMap.SeatMap.AddStudent | app.js:360-362 | the trimmed record is appended with a fresh id; the invariants are kept |
| SeatMap.SeatMap.AssignUnplaced | app.js:365-379 | the map becomes the gap filler's result; the invariants are kept |
| SeatMap.SeatMap.AddFromInput | app.js:663-671 | a name that trims to nothing changes nothing; otherwise the student is appended and the gap filler runs |
| SeatMap.SeatMap.AddRecords | app.js:347-350 | the per-line loop appends one trimmed student per record, in file order; the invariants are kept |
| SeatMap.SeatMap.ImportCsv | app.js:345-351 | the import appends one trimmed student per record and then runs the gap filler; the invariants are kept |
| SeatMap.SeatMap.Randomize | app.js:382-397 | the map becomes the random placement for the given picks; the invariants are kept |
| SeatMap.SeatMap.DeleteStudent | app.js:219-222 | the student leaves the list, every entry holding its id goes, and the invariants are kept |
| SeatMap.SeatMap.Clear | app.js:403-408 | unconfirmed, nothing changes; confirmed, no students, no seats taken and a fresh mask |
| SeatMap.SeatMap.ReleaseDrag | app.js:284-326 | the map becomes the release of the drop at the rounded, clamped cell; the invariants are kept |
| SeatMap.Drop | app.js:296-326 | the pointerup body computes the release of the drop: nothing changes off a seat, from an empty source or onto the source; otherwise a move or a swap |
| SeatMap.ExportCell | app.js:459-463 | one export row: the key, the coordinates, and the occupant's name and email or empty fields |
| SeatMap.ScanStep | app.js:459-463 | one more scanned cell appends its export row exactly when it is a seat |
| SeatMap.ScanRow | app.js:458-464 | one row of the export scan appends that row's seat cells |
| SeatMap.ExportTable | app.js:455-464 | the export scan builds exactly the export rows |

## Left out

- DOM construction, styling and the pixel layout of `buildGrid` and `renderStudentList`. These are rendering only. `BuildGrid` models buildGrid's state changes, and each handler is modelled without its trailing render.
- Pointer capture and the `pointermove` bookkeeping of `style.left` and `style.top`. The release takes the final integer position of the seat's top-left corner as input.
- Floating-point pixel arithmetic (`parseFloat`, `Math.round` on doubles). Positions are integers, and rounding is integer round-half-up.
- Randomness. `uid()` becomes an id parameter with a freshness precondition. `Math.random` in the shuffle becomes a sequence of picks with `0 <= picks[i] <= i`.
- The pointercancel handler and the drag's "snap back" paths only call `buildGrid`. `BuildGrid` covers them.
- The click-to-assign path. It reads an undeclared `assignMode`, and its button is never attached to the page.
- The Apply Grid handler's unclamped `parseInt` values, which reach `applyTemplate` before `buildGrid` clamps them. The model runs the reconciler on clamped sizes only, apart from the initial call in the constructor, where the sizes are the unclamped `parseInt(...) || default` values but no student and no seat exist yet, so the result is the empty map (`Assignment.ReconcileEmpty`). `Grid.FrontRowsOnEmptyGrid` records what zero rows would do.
- The template-change handler. It is `ApplyTemplate` followed by `AssignUnplaced` and `BuildGrid`, each modelled on its own.
- `FileReader`, `localStorage`, JSON, `Blob` downloads, `fetch` and the print window. These are I/O. The JSON and server load paths can install maps that break the invariants (dangling or duplicate ids), so `Consistent()` is not claimed after a load.
- The server CSV upload. It calls `addStudent` and the gap filler, as the client import does; the server's own parsing is not part of this model.
- `save.php`: file-system and HTTP plumbing.
- The `assigned` set in `applyTemplate`. It is computed but never read.
- Keys are `Cell` pairs instead of `${r}_${c}` strings. `Export.CellKeyInjective` shows that for non-negative coordinates no information is lost.
