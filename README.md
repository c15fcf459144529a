# RDataFrame display table and TPolyLine point storage, in Dafny

This project models two pieces of ROOT and proves properties of them.

**`RDisplay`** (tree/dataframe/src/RDFDisplay.cxx, module `RDFDisplay` in
`rdfdisplay.dfy`) is the table behind `RDataFrame::Display`.
- **Filling the table.** The constructor writes the column names as the first row. Each record is then filled through a write cursor:
  - `AddToRow` stores one value and widens its column.
  - `AddCollectionToRow` lays a collection down the current column, one element per row. The first and last elements are printed, the second becomes the dots when it is not also the last, and the rest are ignored.
  - `MovePosition` moves the cursor on, opening a new record past the last column.
- **Printing the table.**
  - `Print` keeps the leading columns whose widths fit the width budget (`GetNColumnsToShorten`).
  - It collapses each collection to "first, `...`, last": an ignored cell pulls the next printable cell of its column forward, and later cells stay silent until a printed cell ends the collapse.
  - It drops rows whose visible fields are all empty.
  - `AsString` writes every cell's raw text with no collapsing.
- **Specifications and proofs.**
  - The table is a `seq<seq<Element>>` field of a class, and the methods update it in place.
  - The printing loops are methods proved equal to specification functions (`Render`, `Dump`). Lemmas about those functions show:
    - every printed line has the same length;
    - `AsString` keeps every row.
  - The class invariant `Valid` includes two facts:
    - every ignored cell has a printable cell further down its column, so the scan at RDFDisplay.cxx:199 stays inside the table;
    - the column widths cover every cell;
    - every collection that starts above the cursor row ends above it, and `fNextRow` is the number of rows, so every record starts on the blank row `MovePosition` appended. Print therefore reaches the first row of each collection with its column not collapsing (`CollectionStartsClear`).

**`TPolyLine`** (graf/src/TPolyLine.cxx, module `PolyLines` in
`polyline.dfy`) is a polyline's point storage: two parallel `Double_t` arrays of capacity
`fN` and the index `fLastPoint` of the last point in use.
- **The class.** It keeps the two arrays as nullable `array<real>` fields.
- **Operations modelled:**
  - the constructors;
  - `Copy` (a deep copy into fresh arrays);
  - `SetPoint`, which reallocates to `max(2·fN, n+1)`, keeps the old points and zero-fills the new tail only when there were old points;
  - `SetNextPoint`;
  - both `Double_t` forms of `SetPolyLine`.
- **Invariant.** Every operation preserves `-1 <= fLastPoint < fN`, and both arrays are present or absent together and hold at least `fN` values.
- **A surprising case.** `SetPolyLine(n)` with `n` equal to the capacity is not a no-op. It goes through `SetPoint(n-1, 0, 0)` and resets the last point to (0, 0). `PolyLineExample.ResizeToCapacity` shows this.

Worked examples in `display_example.dfy` and `polyline_example.dfy` drive the
classes end to end.
- A five-element collection in a one-column display prints as "v", "a", "...", "e".
- Three appends to an empty polyline grow the capacity 1, 2, 4.

Two details of the code are easy to misread, and the model keeps them as written:
- a dotted cell prints three ASCII dots `...`, not a single ellipsis character;
- the width budget sums the column widths alone, with no separator overhead per column.

## Model

| member | source | states |
|---|---|---|
| RDFDisplay.CollectionAction | tree/dataframe/src/RDFDisplay.cxx:91-102 | element i of k is printed iff it is first or last, dotted iff i = 1 and k > 2, ignored iff 2 <= i < k-1 |
| RDFDisplay.MaxLength | tree/dataframe/src/RDFDisplay.cxx:87-89 | the width a collection widens its column to bounds every element's length and is attained by one of them |
| RDFDisplay.WidthStep | tree/dataframe/src/RDFDisplay.cxx:87-98 | one loop step widens the column to the element, then to 3 when the element is the dotted one |
| RDFDisplay.Placed | tree/dataframe/src/RDFDisplay.cxx:78-113 | after a collection is laid down every row still has fNColumns cells and the table has max(old rows, start+k) rows |
| RDFDisplay.PartlyPlacedCells | tree/dataframe/src/RDFDisplay.cxx:82-113 | after i elements, each cell is element j of the collection in row start+j of the column, the old cell, or blank in an appended row |
| RDFDisplay.PlacedCells | tree/dataframe/src/RDFDisplay.cxx:78-113 | element i sits at row start+i of the column with its print action; every other cell is unchanged or blank |
| RDFDisplay.WritePrintedKeepsSuccessors | tree/dataframe/src/RDFDisplay.cxx:70 | storing a printed value keeps every ignored cell's later printable cell |
| RDFDisplay.AppendBlankKeepsSuccessors | tree/dataframe/src/RDFDisplay.cxx:126 | appending a blank row keeps every ignored cell's later printable cell, and every collection above the new row ends above it |
| RDFDisplay.SettledKept | tree/dataframe/src/RDFDisplay.cxx:63-116 | writes at or below the cursor row keep every collection above that row ended above it |
| RDFDisplay.PlacedKeepsSuccessors | tree/dataframe/src/RDFDisplay.cxx:91-112 | after a collection is placed every ignored cell, old or new, still has a printable cell below it in its column |
| RDFDisplay.PlacedWidthsCover | tree/dataframe/src/RDFDisplay.cxx:87-98 | after a collection is placed the widened column covers all its elements, ignored ones included, and is at least 3 wherever dots were placed |
| RDFDisplay.PrefixSumMonotone | tree/dataframe/src/RDFDisplay.cxx:157-161 | the running total of widths never decreases |
| RDFDisplay.VisibleColumns | tree/dataframe/src/RDFDisplay.cxx:152-165 | the kept columns' widths total at most the budget, and one more column would exceed it |
| RDFDisplay.VisibleColumnsUnique | tree/dataframe/src/RDFDisplay.cxx:157-161 | the first index whose prefix total exceeds the budget is exactly the number of kept columns |
| RDFDisplay.ShortenGrowsWithColumns | tree/dataframe/src/RDFDisplay.cxx:152-165 | adding a column never lowers the number of columns to drop |
| RDFDisplay.Pad | tree/dataframe/src/RDFDisplay.cxx:211 | a left-aligned setw field is as long as the larger of the text and the width |
| RDFDisplay.PadContents | tree/dataframe/src/RDFDisplay.cxx:211 | the field starts with the text and continues with fill characters only |
| RDFDisplay.NextPrinted | tree/dataframe/src/RDFDisplay.cxx:198-201 | the scan stops at the first printable cell at or after its start, every cell skipped is not printable, and it reaches the end only when there is none |
| RDFDisplay.NextPrintedInTable | tree/dataframe/src/RDFDisplay.cxx:198-202 | from below an ignored cell the scan finds a printable cell inside the table |
| RDFDisplay.CellOutput | tree/dataframe/src/RDFDisplay.cxx:182-205 | a dotted cell writes "..." and keeps the flag; a printed cell writes its text unless collapsing, and clears the flag; an ignored cell writes the next printable cell of its column and sets the flag, or writes nothing while collapsing |
| RDFDisplay.CollectionCollapses | tree/dataframe/src/RDFDisplay.cxx:182-205 | when its column is not collapsing at its first row, a collection of three or more elements prints as its first element, the dots and its last element in three successive rows; the rows of the elements in between print nothing, and the last element's row ends the collapse |
| RDFDisplay.RenderRowFlags | tree/dataframe/src/RDFDisplay.cxx:181-205 | after a row's pass each column's collapse flag is the one that row's cell leaves |
| RDFDisplay.HiddenFlagClear | tree/dataframe/src/RDFDisplay.cxx:169-181 | the collapse flag of a column Print does not show stays clear |
| RDFDisplay.SettledFlagClear | tree/dataframe/src/RDFDisplay.cxx:171-217 | Print reaches a row with a column's flag clear when every ignored cell above it in that column has a printed cell below it, still above the row |
| RDFDisplay.CollectionStartsClear | tree/dataframe/src/RDFDisplay.cxx:76-217 | a collection laid down at the cursor row of a display is reached by Print with its column's flag clear, so CollectionCollapses applies to it |
| RDFDisplay.RenderRow | tree/dataframe/src/RDFDisplay.cxx:181-213 | a row's pass leaves the collapse flags of the columns it has not reached unchanged |
| RDFDisplay.RenderRows | tree/dataframe/src/RDFDisplay.cxx:171-217 | Print writes at most one line per table row and keeps one flag per column |
| RDFDisplay.RenderRowLength | tree/dataframe/src/RDFDisplay.cxx:211-212 | a row's text is as long as the widths of the printed columns plus three characters per column |
| RDFDisplay.RenderRowsLength | tree/dataframe/src/RDFDisplay.cxx:169-217 | every line Print writes has the same length, the kept columns' total width plus the separators |
| RDFDisplay.DumpPrefixes | tree/dataframe/src/RDFDisplay.cxx:225-231 | AsString's text for the first r+1 rows is its text for r rows followed by row r's line |
| RDFDisplay.DumpRowLength | tree/dataframe/src/RDFDisplay.cxx:226-229 | each AsString line is as long as the total width plus the separators |
| RDFDisplay.DumpLength | tree/dataframe/src/RDFDisplay.cxx:220-233 | AsString writes one full-width line for every row of the table, none dropped or shortened |
| RDFDisplay.SingletonCollectionIsCell | tree/dataframe/src/RDFDisplay.cxx:76-116 | a one-element collection is stored exactly as AddToRow stores the value, with the same width update |
| RDFDisplay.PartlyPlaced | tree/dataframe/src/RDFDisplay.cxx:82-113 | the table after the loop's first i iterations keeps every row n cells wide; for i > 0 it has max(old rows, start+i+1) rows while elements remain and max(old rows, start+i) once all are placed (`Placed` is the table after the whole loop) |
| RDFDisplay.PlaceCollection | tree/dataframe/src/RDFDisplay.cxx:78-113 | each iteration writes element i to row start+i, which exists, and appends a blank row only when a further element has no row; the loop yields the placed table, the column widened to the collection, and the row after the collection |
| RDFDisplay.ScanToPrinted | tree/dataframe/src/RDFDisplay.cxx:198-201 | the forward scan returns the first printable cell of the column |
| RDFDisplay.RenderCell | tree/dataframe/src/RDFDisplay.cxx:182-205 | the inner loop body writes what CellOutput specifies and returns the new flag |
| RDFDisplay.RenderTableRow | tree/dataframe/src/RDFDisplay.cxx:176-213 | each iteration appends the padded field and " \| ", keeps the row empty only if the field is empty, and updates that column's flag; the loop yields the row text, its emptiness and the flags RenderRow specifies |
| RDFDisplay.RenderTable | tree/dataframe/src/RDFDisplay.cxx:171-217 | each iteration appends the row's text unless all its fields are empty and carries the flags into the next row; the loop writes exactly the lines RenderRows specifies |
| RDFDisplay.DumpTable | tree/dataframe/src/RDFDisplay.cxx:224-232 | the loops build exactly the text Dump specifies |
| RDFDisplay.RDisplay.constructor | tree/dataframe/src/RDFDisplay.cxx:140-150 | the first row holds the column names as printed cells, widths are the names' lengths, and the cursor is at the start of the second row |
| RDFDisplay.RDisplay.MovePosition | tree/dataframe/src/RDFDisplay.cxx:118-128 | the cursor moves one column on; past the last column it goes to column 0 of row fNextRow, sets fNextRow to the row after that, and appends a blank row |
| RDFDisplay.RDisplay.AddToRow | tree/dataframe/src/RDFDisplay.cxx:63-74 | the value is stored printed at the cursor, its column widened to fit, and the cursor moved on; the invariant is kept |
| RDFDisplay.RDisplay.AddCollectionToRow | tree/dataframe/src/RDFDisplay.cxx:76-116 | the table becomes the placed collection, the column widens to cover it, fNextRow becomes max(fNextRow, row+k), then the cursor moves on; the invariant is kept |
| RDFDisplay.RDisplay.GetNColumnsToShorten | tree/dataframe/src/RDFDisplay.cxx:152-165 | returns 0 iff all widths fit the budget, otherwise the number of columns from the first overflowing one to the end |
| RDFDisplay.RDisplay.Print | tree/dataframe/src/RDFDisplay.cxx:167-218 | the lines written are `Render`'s: the collapsed, non-empty rows restricted to the columns that fit the budget |
| RDFDisplay.RDisplay.AsString | tree/dataframe/src/RDFDisplay.cxx:220-233 | the text is `Dump`'s: every cell's raw representation padded to its column (`DumpRow`), one line per row |
| DisplayExample.CollapsedTableBuilt | tree/dataframe/src/RDFDisplay.cxx:76-128 | a five-element collection in one column is stored printed, dotted, ignored, ignored, printed, followed by the next record's blank row |
| DisplayExample.CollapsedCellOutputs | tree/dataframe/src/RDFDisplay.cxx:182-205 | in that column the ignored cell pulls the last element forward and every later cell until the next record is silent |
| DisplayExample.CollapsedTablePrints | tree/dataframe/src/RDFDisplay.cxx:167-218 | that table prints as header, first element, dots and last element |
| DisplayExample.ShowCollection | tree/dataframe/src/RDFDisplay.cxx:76-218 | constructing the display, adding the collection and printing yields "v   \| ", "a   \| ", "... \| ", "e   \| " |
| PolyLines.GrownCapacity | graf/src/TPolyLine.cxx:565 | the new capacity holds the point and at least doubles the old capacity, being one of the two |
| PolyLines.Reallocated | graf/src/TPolyLine.cxx:566-577 | a fresh array of the new capacity holding the old values followed by zeros when there were old values |
| PolyLines.TPolyLine.Empty | graf/src/TPolyLine.cxx:39-47 | no storage, capacity 0, no point in use |
| PolyLines.TPolyLine.WithSize | graf/src/TPolyLine.cxx:51-67 | capacity n in fresh arrays with no point in use, or nothing for n <= 0; the option is stored either way |
| PolyLines.TPolyLine.FromPoints | graf/src/TPolyLine.cxx:94-113 | the first n points of x and y copied in order with all in use; if either array is missing the storage is allocated and no point is in use; nothing for n <= 0 |
| PolyLines.TPolyLine.CopyOf | graf/src/TPolyLine.cxx:127-132 | the new polyline has the same capacity, last point, option and points, in its own arrays |
| PolyLines.TPolyLine.Copy | graf/src/TPolyLine.cxx:136-154 | the target gets equal capacity, last point, option and points in fresh arrays, or no arrays when the capacity is 0 |
| PolyLines.TPolyLine.Grow | graf/src/TPolyLine.cxx:563-581 | both arrays become fresh ones of the grown capacity holding the old points then zeros when there were old points |
| PolyLines.TPolyLine.SetPoint | graf/src/TPolyLine.cxx:556-585 | a negative index changes nothing. Otherwise: point index becomes (x, y); fLastPoint becomes max(fLastPoint, index); the other points are kept in place, or after growth kept and followed by zeros; the storage grows exactly when the index is beyond the capacity |
| PolyLines.TPolyLine.SetNextPoint | graf/src/TPolyLine.cxx:544-552 | writes at fLastPoint+1 and returns that index as the new fLastPoint; every other stored point is kept; only a full buffer grows, to twice its capacity (or to 1), with the slots after the new point zeroed |
| PolyLines.TPolyLine.SetPolyLine | graf/src/TPolyLine.cxx:589-607 | n <= 0 drops the storage; 0 < n < fN truncates to n points all in use; otherwise the point n-1 is set to (0, 0) as by SetPoint, growing if needed |
| PolyLines.TPolyLine.SetPolyLinePoints | graf/src/TPolyLine.cxx:640-665 | n > 0 gives exactly n fresh points copied from each array that is given, all in use, with the new option; n <= 0 drops the storage and keeps the option |
| PolyLineExample.AppendThree | graf/src/TPolyLine.cxx:544-585 | three appends to an empty polyline take indices 0, 1, 2, grow the capacity to 1, 2 and 4, keep the points in order and leave the fourth slot zeroed |
| PolyLineExample.ResizeToCapacity | graf/src/TPolyLine.cxx:589-607 | SetPolyLine(fN) on a full polyline resets its last point to (0, 0) |

## Left out

- `RDisplay::CallInterpreter` (RDFDisplay.cxx:130-138) is not modelled. It hands code to the C++ interpreter, which is outside this model.
- The `RDisplay` fields `fTypes`, `fRepresentations`, `fCollectionsRepresentations` and `fEntries` are not modelled. They are only stored by the constructor.
- `RDisplayElement`'s setters and getters become the `Element` datatype. A cell's action is decided before it is stored and is never changed afterwards.
- `Print` writes to `std::cout`. The model returns the lines instead, without the line terminators.
- `std::setw`/`std::setfill` become `Pad`. Lengths count characters of `seq<char>`, where the source counts the bytes of `std::string`.
- The constants `fgMaxWidth` and `fgSeparator` are declared in RDFDisplay.hxx, which is not part of this model. They become the constructor parameters `maxWidth` and `fill`. The worked example uses a budget of 80 and a space.
- RDFDisplay.RDisplay.GetNColumnsToShorten: the `size_t` running total is an unbounded `nat`, so wrap-around of the sum is not modelled.
- RDFDisplay.RDisplay.AddToRow, RDFDisplay.RDisplay.AddCollectionToRow and RDFDisplay.RDisplay.MovePosition require at least one column, so the model accepts no values on a display with no columns. With none, `AddToRow`, and `AddCollectionToRow` with a non-empty collection, index past the end of the empty `fWidths`. `MovePosition` and `AddCollectionToRow` with an empty collection are safe in the source, but `MovePosition` then never wraps, so the cursor column counts up without bound past the (absent) columns; the invariant keeps the cursor column at 0 instead.
- The loops of `AddCollectionToRow`, `Print` and `AsString` are written as module-level methods over the table value (`PlaceCollection`, `RenderTable`, `RenderTableRow`, `RenderCell`, `ScanToPrinted`, `DumpTable`). The class methods call them and assign the results.
- TPolyLine graphics and interaction are not modelled: `DistancetoPrimitive`, `ExecuteEvent`, `Draw`, `DrawPolyLine`, `Paint`, `PaintPolyLine`, `PaintPolyLineNDC`. They depend on the pad, pixel conversions and floating-point geometry.
- TPolyLine I/O and printing are not modelled: `SavePrimitive`, `Streamer`, `ls` and `Print`. They are file and stream output.
- `TPolyLine::Merge` is not modelled. It dereferences `pl` after it has been left null (TPolyLine.cxx:433, 442) and every merged polyline overwrites from index 0 (TPolyLine.cxx:451), so it has no meaningful contract.
- The `Float_t*` constructor and `SetPolyLine` overload are not modelled. They differ from the `Double_t*` ones only by the float-to-double conversion.
- roofit/inc/RooKeysPdf.h is not part of this model. It holds declarations only.
- Coordinates are `real`. The storage operations only copy values, so no floating-point rounding arises.
- The `TObject`, `TAttLine` and `TAttFill` parts copied by `Copy` and the copy constructor are not modelled.
- `delete[]` and the destructor are not modelled, since memory is not released explicitly in the model. The arrays `new Double_t[n]` allocates are left unconstrained where the source leaves them uninitialised.
- PolyLines.TPolyLine.Copy requires the target to be a different object. Copying a polyline onto itself in the source would read its freshly allocated, uninitialised arrays.
- PolyLines.TPolyLine.SetPolyLinePoints: when passed the polyline's own arrays, the model reads their old values. The source would read memory it has just freed.
- PolyLines.TPolyLine.SetPoint: `Int_t` overflow of `2*fN` and of `n+1` is not modelled.
