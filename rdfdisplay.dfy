/** A model of the console table that RDataFrame's Display builds and prints
    (tree/dataframe/src/RDFDisplay.cxx): a grid of already stringified cells,
    filled record by record through a write cursor, rendered with per-column
    widths, collection shortening and a width budget. */
module RDFDisplay {

  /** What Print does with a cell (RDisplayElement's PrintingAction). */
  datatype PrintingAction = ToBePrinted | ToBeIgnored | ToBeDotted

  /** One cell: the string representation of a value and its print action. */
  datatype Element = Element(representation: string, action: PrintingAction) {
    predicate IsPrint() { action == ToBePrinted }
    predicate IsIgnore() { action == ToBeIgnored }
    predicate IsDot() { action == ToBeDotted }
  }

  /** A default-constructed element: empty and to be printed. */
  const Blank := Element("", ToBePrinted)

  type Table = seq<seq<Element>>

  function Max(a: int, b: int): int { if a < b then b else a }

  /** The row std::vector<DElement_t>(n) creates: n blank elements. */
  function EmptyRow(n: nat): (row: seq<Element>)
    ensures |row| == n
  {
    seq(n, _ => Blank)
  }

  /** Every row of the table holds exactly n cells. */
  ghost predicate Shaped(t: Table, n: nat) {
    forall r | 0 <= r < |t| :: |t[r]| == n
  }

  /** Every cell fits the width of its column, and a dotted cell's column is
      wide enough for the three dots. */
  ghost predicate WidthsCover(t: Table, widths: seq<nat>)
    requires Shaped(t, |widths|)
  {
    forall r, c | 0 <= r < |t| && 0 <= c < |widths| ::
      |t[r][c].representation| <= widths[c] && (t[r][c].IsDot() ==> 3 <= widths[c])
  }

  /** Every ignored cell has a cell to be printed further down its column:
      the element Print shows in its place. */
  ghost predicate IgnoredHaveSuccessor(t: Table, n: nat)
    requires Shaped(t, n)
  {
    forall r, c {:trigger t[r][c].IsIgnore()} | 0 <= r < |t| && 0 <= c < n && t[r][c].IsIgnore() ::
      exists r' :: r < r' < |t| && t[r'][c].IsPrint()
  }

  /** Every ignored cell above `row` has a cell to be printed below it but
      still above `row`: every collection that starts above `row` has ended
      there, so Print reaches `row` with no column collapsing. */
  ghost predicate SettledAbove(t: Table, n: nat, row: nat)
    requires Shaped(t, n) && row <= |t|
  {
    forall r, c {:trigger t[r][c].IsIgnore()} | 0 <= r < row && 0 <= c < n && t[r][c].IsIgnore() ::
      exists r' :: r < r' < row && t[r'][c].IsPrint()
  }

  /** Whether rows are settled above `row` depends on those rows alone. */
  lemma SettledKept(t: Table, u: Table, n: nat, row: nat)
    requires Shaped(t, n) && Shaped(u, n) && row <= |t| && row <= |u| && SettledAbove(t, n, row)
    requires forall r, c | 0 <= r < row && 0 <= c < n :: u[r][c] == t[r][c]
    ensures SettledAbove(u, n, row)
  {
    forall r: int, c: int | 0 <= r < row && 0 <= c < n && u[r][c].IsIgnore()
      ensures exists r': int :: r < r' < row && u[r'][c].IsPrint()
    {
      assert t[r][c].IsIgnore();
      var r' :| r < r' < row && t[r'][c].IsPrint();
      assert u[r'][c].IsPrint();
    }
  }

  // ---------------------------------------------------------------------
  // Laying down collections
  // ---------------------------------------------------------------------

  /** The action of element `index` of a collection of `size` elements: the
      first and the last are printed, the second becomes the dots unless it
      is the last, and the rest are ignored. */
  function CollectionAction(index: nat, size: nat): (a: PrintingAction)
    requires index < size
    ensures a == ToBePrinted <==> index == 0 || index == size - 1
    ensures a == ToBeDotted <==> index == 1 && 2 < size
    ensures a == ToBeIgnored <==> 2 <= index < size - 1
  {
    if index == 0 || index == size - 1 then ToBePrinted
    else if index == 1 then ToBeDotted
    else ToBeIgnored
  }

  /** The length of the longest string of the collection (0 when empty). */
  function MaxLength(collection: seq<string>): (m: nat)
    ensures forall i | 0 <= i < |collection| :: |collection[i]| <= m
    ensures collection == [] || exists i :: 0 <= i < |collection| && |collection[i]| == m
  {
    if collection == [] then 0
    else
      var init := collection[..|collection| - 1];
      var m := MaxLength(init);
      assert forall i | 0 <= i < |init| :: collection[i] == init[i];
      Max(m, |collection[|collection| - 1]|)
  }

  /** A column's width after a collection is added to it: it covers every
      element, ignored ones included, and the dots when they are placed. */
  function CollectionWidth(width: nat, collection: seq<string>): nat {
    Max(Max(width, MaxLength(collection)), if 2 < |collection| then 3 else 0)
  }

  /** The column's width once the first `count` elements are stored. */
  function PartialWidth(width: nat, collection: seq<string>, count: nat): nat
    requires count <= |collection|
  {
    Max(Max(width, MaxLength(collection[..count])), if 2 <= count && 2 < |collection| then 3 else 0)
  }

  /** One step of AddCollectionToRow's width updates: widen to the element,
      then to the three dots when the element is the dotted one. */
  lemma WidthStep(width: nat, collection: seq<string>, count: nat)
    requires count < |collection|
    ensures
      var w := Max(PartialWidth(width, collection, count), |collection[count]|);
      PartialWidth(width, collection, count + 1)
        == if count == 1 && count != |collection| - 1 then Max(w, 3) else w
  {
    assert collection[..count + 1][..count] == collection[..count];
  }

  /** The number of rows AddCollectionToRow's loop has when `count` of the
      collection's elements are stored: each element but the last makes sure
      the row below it exists. */
  function RowsAfter(rows: nat, row: nat, count: nat, size: nat): nat {
    if count == 0 then rows
    else Max(rows, if count < size then row + count + 1 else row + count)
  }

  /** The table once the first `count` elements of `collection` are laid
      down `column` from `row` on: element i is stored in row `row + i`, and
      a blank row is appended below it when the next element needs one. */
  ghost function PartlyPlaced(t: Table, n: nat, row: nat, column: nat, collection: seq<string>, count: nat): (p: Table)
    requires Shaped(t, n) && row < |t| && column < n && count <= |collection|
    ensures Shaped(p, n) && |p| == RowsAfter(|t|, row, count, |collection|)
    decreases count
  {
    if count == 0 then t
    else
      var u := PartlyPlaced(t, n, row, column, collection, count - 1);
      var r := row + count - 1;
      var w := u[r := u[r][column := Element(collection[count - 1], CollectionAction(count - 1, |collection|))]];
      if count < |collection| && |w| <= r + 1 then w + [EmptyRow(n)] else w
  }

  /** One more element laid down, as AddCollectionToRow's loop stores it. */
  lemma PlaceNext(t: Table, n: nat, row: nat, column: nat, collection: seq<string>, count: nat, e: Element,
                  before: Table, at: nat)
    requires Shaped(t, n) && row < |t| && column < n && count < |collection|
    requires e == Element(collection[count], CollectionAction(count, |collection|))
    requires before == PartlyPlaced(t, n, row, column, collection, count) && at == row + count
    ensures at < |before| && |before[at]| == n
    ensures var w := before[at := before[at][column := e]];
      PartlyPlaced(t, n, row, column, collection, count + 1)
        == if count != |collection| - 1 && |w| <= at + 1 then w + [EmptyRow(n)] else w
  {
  }

  /** The table after the whole collection is laid down. */
  ghost function Placed(t: Table, n: nat, row: nat, column: nat, collection: seq<string>): (p: Table)
    requires Shaped(t, n) && row < |t| && column < n
    ensures Shaped(p, n) && |p| == Max(|t|, row + |collection|)
  {
    PartlyPlaced(t, n, row, column, collection, |collection|)
  }

  /** What cell (r, c) holds once `count` elements are laid down `column`
      from `row` on: element i of the collection, with its action, in row
      `row + i` of the column; every other cell as it was, or blank in an
      appended row. */
  ghost function PlacedCell(t: Table, row: nat, column: nat, collection: seq<string>, count: nat, r: nat, c: nat): Element
    requires count <= |collection| && (r < |t| ==> c < |t[r]|)
  {
    if c == column && row <= r < row + count then
      Element(collection[r - row], CollectionAction(r - row, |collection|))
    else if r < |t| then t[r][c]
    else Blank
  }

  /** Every cell of PartlyPlaced is the one PlacedCell describes. */
  lemma {:induction false} PartlyPlacedCells(t: Table, n: nat, row: nat, column: nat, collection: seq<string>, count: nat)
    requires Shaped(t, n) && row < |t| && column < n && count <= |collection|
    ensures var p := PartlyPlaced(t, n, row, column, collection, count);
      forall r: nat, c: nat | r < |p| && c < n :: p[r][c] == PlacedCell(t, row, column, collection, count, r, c)
  {
    if count > 0 {
      PartlyPlacedCells(t, n, row, column, collection, count - 1);
      var u := PartlyPlaced(t, n, row, column, collection, count - 1);
      var at := row + count - 1;
      var e := Element(collection[count - 1], CollectionAction(count - 1, |collection|));
      var w: Table := u[at := u[at][column := e]];
      var p := PartlyPlaced(t, n, row, column, collection, count);
      assert p == if count < |collection| && |w| <= at + 1 then w + [EmptyRow(n)] else w;
      forall r: nat, c: nat | r < |p| && c < n
        ensures p[r][c] == PlacedCell(t, row, column, collection, count, r, c)
      {
        if r < |w| {
          assert p[r][c] == w[r][c];
          if r == at && c == column {
            assert w[r][c] == e;
          } else {
            assert w[r][c] == u[r][c];
            assert u[r][c] == PlacedCell(t, row, column, collection, count - 1, r, c);
          }
        } else {
          assert |u| == |w| && |t| <= |u|;
          assert p[r] == EmptyRow(n);
        }
      }
    }
  }

  /** The whole collection laid down: every element in its row with its
      action, the rest of the table unchanged, blank rows appended only as
      far as the collection reaches. */
  lemma PlacedCells(t: Table, n: nat, row: nat, column: nat, collection: seq<string>)
    requires Shaped(t, n) && row < |t| && column < n
    ensures var p := Placed(t, n, row, column, collection);
      && |p| == Max(|t|, row + |collection|)
      && (forall i | 0 <= i < |collection| ::
            p[row + i][column] == Element(collection[i], CollectionAction(i, |collection|)))
      && (forall r, c | 0 <= r < |p| && 0 <= c < n && !(c == column && row <= r < row + |collection|) ::
            p[r][c] == if r < |t| then t[r][c] else Blank)
  {
    PartlyPlacedCells(t, n, row, column, collection, |collection|);
    var p := Placed(t, n, row, column, collection);
    assert p == PartlyPlaced(t, n, row, column, collection, |collection|);
    forall i | 0 <= i < |collection|
      ensures p[row + i][column] == Element(collection[i], CollectionAction(i, |collection|))
    {
      assert p[row + i][column] == PlacedCell(t, row, column, collection, |collection|, row + i, column);
    }
    forall r, c | 0 <= r < |p| && 0 <= c < n && !(c == column && row <= r < row + |collection|)
      ensures p[r][c] == if r < |t| then t[r][c] else Blank
    {
      assert p[r][c] == PlacedCell(t, row, column, collection, |collection|, r, c);
    }
  }

  /** Overwriting a cell with a printed element keeps every ignored cell's
      successor. */
  lemma WritePrintedKeepsSuccessors(t: Table, n: nat, row: nat, column: nat, s: string)
    requires Shaped(t, n) && IgnoredHaveSuccessor(t, n) && row < |t| && column < n
    ensures Shaped(t[row := t[row][column := Element(s, ToBePrinted)]], n)
    ensures IgnoredHaveSuccessor(t[row := t[row][column := Element(s, ToBePrinted)]], n)
  {
    var u: Table := t[row := t[row][column := Element(s, ToBePrinted)]];
    forall r: int, c: int | 0 <= r < |u| && 0 <= c < n && u[r][c].IsIgnore()
      ensures exists r': int :: r < r' < |u| && u[r'][c].IsPrint()
    {
      assert t[r][c] == u[r][c];
      var r' :| r < r' < |t| && t[r'][c].IsPrint();
      assert u[r'][c].IsPrint();
    }
  }

  /** Appending a blank row keeps every ignored cell's successor, and
      settles every row above the new one. */
  lemma AppendBlankKeepsSuccessors(t: Table, n: nat)
    requires Shaped(t, n) && IgnoredHaveSuccessor(t, n)
    ensures Shaped(t + [EmptyRow(n)], n)
    ensures IgnoredHaveSuccessor(t + [EmptyRow(n)], n)
    ensures SettledAbove(t + [EmptyRow(n)], n, |t|)
  {
    var u: Table := t + [EmptyRow(n)];
    forall r: int, c: int | 0 <= r < |u| && 0 <= c < n && u[r][c].IsIgnore()
      ensures exists r': int :: r < r' < |t| && u[r'][c].IsPrint()
    {
      assert r < |t| && u[r][c] == t[r][c];
      var r' :| r < r' < |t| && t[r'][c].IsPrint();
      assert u[r'][c] == t[r'][c];
    }
  }

  /** Laying down a collection keeps every ignored cell's successor: the
      collection's own ignored elements, and any older ignored cell whose
      successor the collection overwrote, find the collection's last element. */
  lemma {:induction false} PlacedKeepsSuccessors(t: Table, n: nat, row: nat, column: nat, collection: seq<string>)
    requires Shaped(t, n) && IgnoredHaveSuccessor(t, n) && row < |t| && column < n
    ensures IgnoredHaveSuccessor(Placed(t, n, row, column, collection), n)
  {
    var p: Table := Placed(t, n, row, column, collection);
    var k := |collection|;
    PlacedCells(t, n, row, column, collection);
    forall r: int, c: int | 0 <= r < |p| && 0 <= c < n && p[r][c].IsIgnore()
      ensures exists r': int :: r < r' < |p| && p[r'][c].IsPrint()
    {
      if c == column && row <= r < row + k {
        assert CollectionAction(k - 1, k) == ToBePrinted;
        assert p[row + k - 1][c].IsPrint();
      } else {
        assert r < |t| && p[r][c] == t[r][c];
        var r' :| r < r' < |t| && t[r'][c].IsPrint();
        if c == column && row <= r' < row + k {
          assert CollectionAction(k - 1, k) == ToBePrinted;
          assert p[row + k - 1][c].IsPrint();
        } else {
          assert p[r'][c] == t[r'][c];
        }
      }
    }
  }

  /** After a collection is laid down, the widths still cover every cell. */
  lemma PlacedWidthsCover(t: Table, widths: seq<nat>, row: nat, column: nat, collection: seq<string>)
    requires Shaped(t, |widths|) && WidthsCover(t, widths) && row < |t| && column < |widths|
    ensures WidthsCover(Placed(t, |widths|, row, column, collection),
                        widths[column := CollectionWidth(widths[column], collection)])
  {
    PlacedCells(t, |widths|, row, column, collection);
    var p: Table := Placed(t, |widths|, row, column, collection);
    var v := widths[column := CollectionWidth(widths[column], collection)];
    forall r: int, c: int | 0 <= r < |p| && 0 <= c < |v|
      ensures |p[r][c].representation| <= v[c] && (p[r][c].IsDot() ==> 3 <= v[c])
    {
      if c == column && row <= r < row + |collection| {
        var i := r - row;
        assert p[r][c] == Element(collection[i], CollectionAction(i, |collection|));
        assert |collection[i]| <= MaxLength(collection);
      } else if r < |t| {
        assert p[r][c] == t[r][c];
      } else {
        assert p[r][c] == Blank;
      }
    }
  }

  // ---------------------------------------------------------------------
  // The width budget
  // ---------------------------------------------------------------------

  /** The total of a sequence of widths. */
  function Sum(s: seq<nat>): nat {
    if s == [] then 0 else Sum(s[..|s| - 1]) + s[|s| - 1]
  }

  /** Prefix sums of widths never decrease. */
  lemma {:induction false} PrefixSumMonotone(s: seq<nat>, i: nat, j: nat)
    requires i <= j <= |s|
    ensures Sum(s[..i]) <= Sum(s[..j])
    decreases j - i
  {
    if i < j {
      PrefixSumMonotone(s, i, j - 1);
      assert s[..j][..j - 1] == s[..j - 1];
    }
  }

  /** The number of leading columns Print keeps: the longest prefix of the
      widths whose total fits in `maxWidth`; the next column, if any, would
      overflow it. */
  function VisibleColumns(widths: seq<nat>, maxWidth: nat): (k: nat)
    ensures k <= |widths|
    ensures Sum(widths[..k]) <= maxWidth
    ensures k < |widths| ==> maxWidth < Sum(widths[..k + 1])
  {
    if Sum(widths) <= maxWidth then
      assert widths[..|widths|] == widths;
      |widths|
    else
      var init := widths[..|widths| - 1];
      var k := VisibleColumns(init, maxWidth);
      assert init[..k] == widths[..k];
      assert k < |init| ==> init[..k + 1] == widths[..k + 1];
      assert widths[..|widths|] == widths;
      k
  }

  /** The first column whose prefix total exceeds the budget is exactly the
      number of visible columns. */
  lemma {:induction false} VisibleColumnsUnique(widths: seq<nat>, maxWidth: nat, i: nat)
    requires i < |widths| && Sum(widths[..i]) <= maxWidth < Sum(widths[..i + 1])
    ensures VisibleColumns(widths, maxWidth) == i
  {
    var k := VisibleColumns(widths, maxWidth);
    if k < i {
      PrefixSumMonotone(widths, k + 1, i);
    } else if i < k {
      PrefixSumMonotone(widths, i + 1, k);
    }
  }

  /** Adding a column never shortens the list of columns to drop. */
  lemma ShortenGrowsWithColumns(widths: seq<nat>, width: nat, maxWidth: nat)
    ensures |widths| - VisibleColumns(widths, maxWidth)
            <= |widths + [width]| - VisibleColumns(widths + [width], maxWidth)
  {
    var k := VisibleColumns(widths, maxWidth);
    if k < |widths| {
      assert (widths + [width])[..k] == widths[..k];
      assert (widths + [width])[..k + 1] == widths[..k + 1];
      VisibleColumnsUnique(widths + [width], maxWidth, k);
    }
  }

  // ---------------------------------------------------------------------
  // Rendering
  // ---------------------------------------------------------------------

  /** A field as std::left << std::setw(width) << std::setfill(fill) writes
      it: the string, then fill characters up to the width. */
  function Pad(s: string, width: nat, fill: char): (r: string)
    ensures |r| == Max(|s|, width)
  {
    if |s| < width then s + seq(width - |s|, _ => fill) else s
  }

  /** The padded field starts with the string itself and continues with
      fill characters only. */
  lemma PadContents(s: string, width: nat, fill: char)
    ensures Pad(s, width, fill)[..|s|] == s
    ensures forall i | |s| <= i < |Pad(s, width, fill)| :: Pad(s, width, fill)[i] == fill
  {
  }

  /** The first row at or after `from` whose cell in `column` is to be
      printed, or |t| when there is none. */
  function NextPrinted(t: Table, n: nat, column: nat, from: nat): (i: nat)
    requires Shaped(t, n) && column < n && from <= |t|
    ensures from <= i <= |t|
    ensures i < |t| ==> t[i][column].IsPrint()
    ensures forall j | from <= j < i :: !t[j][column].IsPrint()
    decreases |t| - from
  {
    if from == |t| || t[from][column].IsPrint() then from
    else NextPrinted(t, n, column, from + 1)
  }

  /** Under the successor invariant the forward scan from below an ignored
      cell finds a printed cell inside the table. */
  lemma NextPrintedInTable(t: Table, n: nat, row: nat, column: nat)
    requires Shaped(t, n) && IgnoredHaveSuccessor(t, n)
    requires row < |t| && column < n && t[row][column].IsIgnore()
    ensures NextPrinted(t, n, column, row + 1) < |t|
  {
    var r' :| row < r' < |t| && t[r'][column].IsPrint();
  }

  /** What Print writes for cell (row, column) given that column's collapse
      flag, and the flag afterwards. A dotted cell writes the dots; a printed
      cell writes its text unless the column is collapsing, and ends the
      collapse; an ignored cell starts a collapse by writing the next printed
      cell of its column, and writes nothing while one is under way. */
  function CellOutput(t: Table, n: nat, row: nat, column: nat, collapsing: bool): (out: (string, bool))
    requires Shaped(t, n) && IgnoredHaveSuccessor(t, n) && row < |t| && column < n
    ensures t[row][column].IsDot() ==> out == ("...", collapsing)
    ensures t[row][column].IsPrint() ==>
              out == (if collapsing then "" else t[row][column].representation, false)
    ensures t[row][column].IsIgnore() && collapsing ==> out == ("", true)
    ensures t[row][column].IsIgnore() && !collapsing ==>
              out.1 && (exists later :: row < later < |t| && t[later][column].IsPrint() &&
                          out.0 == t[later][column].representation &&
                          forall j | row < j < later :: !t[j][column].IsPrint())
  {
    var e := t[row][column];
    if e.IsDot() then ("...", collapsing)
    else if e.IsPrint() then (if collapsing then "" else e.representation, false)
    else if collapsing then ("", true)
    else
      NextPrintedInTable(t, n, row, column);
      var later := NextPrinted(t, n, column, row + 1);
      (t[later][column].representation, true)
  }

  /** A collection of three or more elements, laid down from `row` with the
      column's collapse flag clear there, prints as its first element, the
      dots and its last element, in three successive rows; the elements in
      between print nothing, and the collapse ends at the last one. */
  lemma CollectionCollapses(t: Table, n: nat, row: nat, column: nat, collection: seq<string>, p: Table)
    requires Shaped(t, n) && IgnoredHaveSuccessor(t, n) && row < |t| && column < n
    requires 3 <= |collection| && p == Placed(t, n, row, column, collection)
    ensures Shaped(p, n) && IgnoredHaveSuccessor(p, n) && row + |collection| <= |p|
    ensures CellOutput(p, n, row, column, false) == (collection[0], false)
    ensures CellOutput(p, n, row + 1, column, false) == ("...", false)
    ensures CellOutput(p, n, row + 2, column, false) == (collection[|collection| - 1], 3 < |collection|)
    ensures forall r | row + 3 <= r < row + |collection| - 1 :: CellOutput(p, n, r, column, true) == ("", true)
    ensures 3 < |collection| ==> CellOutput(p, n, row + |collection| - 1, column, true) == ("", false)
  {
    var k := |collection|;
    PlacedCells(t, n, row, column, collection);
    PlacedKeepsSuccessors(t, n, row, column, collection);
    assert p[row][column] == Element(collection[0], ToBePrinted);
    assert p[row + 1][column] == Element(collection[1], ToBeDotted);
    assert p[row + k - 1][column] == Element(collection[k - 1], ToBePrinted);
    forall r | row + 2 <= r < row + k - 1
      ensures p[r][column].IsIgnore()
    {
      assert p[r][column] == Element(collection[r - row], CollectionAction(r - row, k));
    }
    if 3 < k {
      assert NextPrinted(p, n, column, row + 3) == row + k - 1;
    }
  }

  /** Print's pass over the first `count` columns of one row: the text so
      far, whether every field so far was empty, and the collapse flags. */
  function RenderRow(t: Table, widths: seq<nat>, fill: char, row: nat, count: nat, flags: seq<bool>)
    : (out: (string, bool, seq<bool>))
    requires Shaped(t, |widths|) && IgnoredHaveSuccessor(t, |widths|)
    requires row < |t| && count <= |widths| && |flags| == |widths|
    ensures |out.2| == |widths|
    ensures forall c | count <= c < |widths| :: out.2[c] == flags[c]
    decreases count
  {
    if count == 0 then ("", true, flags)
    else
      var (text, empty, fl) := RenderRow(t, widths, fill, row, count - 1, flags);
      var (s, f) := CellOutput(t, |widths|, row, count - 1, fl[count - 1]);
      (text + Pad(s, widths[count - 1], fill) + " | ", empty && s == "", fl[count - 1 := f])
  }

  /** One more column of Print's pass over a row. */
  lemma RenderRowStep(t: Table, widths: seq<nat>, fill: char, row: nat, count: nat, flags: seq<bool>,
                      before: (string, bool, seq<bool>))
    requires Shaped(t, |widths|) && IgnoredHaveSuccessor(t, |widths|)
    requires row < |t| && count < |widths| && |flags| == |widths|
    requires before == RenderRow(t, widths, fill, row, count, flags)
    ensures |before.2| == |widths|
    ensures RenderRow(t, widths, fill, row, count + 1, flags)
        == (before.0 + Pad(CellOutput(t, |widths|, row, count, before.2[count]).0, widths[count], fill) + " | ",
            before.1 && CellOutput(t, |widths|, row, count, before.2[count]).0 == "",
            before.2[count := CellOutput(t, |widths|, row, count, before.2[count]).1])
  {
  }

  /** Print's pass over the first `count` rows, showing `columns` columns:
      the lines written (a row whose fields are all empty is skipped) and the
      collapse flags, all clear at the start of every Print. */
  function RenderRows(t: Table, widths: seq<nat>, fill: char, columns: nat, count: nat)
    : (out: (seq<string>, seq<bool>))
    requires Shaped(t, |widths|) && IgnoredHaveSuccessor(t, |widths|)
    requires columns <= |widths| && count <= |t|
    ensures |out.0| <= count && |out.1| == |widths|
    decreases count
  {
    if count == 0 then ([], seq(|widths|, _ => false))
    else
      var (lines, flags) := RenderRows(t, widths, fill, columns, count - 1);
      var (text, empty, flags') := RenderRow(t, widths, fill, count - 1, columns, flags);
      (if empty then lines else lines + [text], flags')
  }

  /** One more row of Print's pass over the table. */
  lemma RenderRowsStep(t: Table, widths: seq<nat>, fill: char, columns: nat, count: nat,
                       before: (seq<string>, seq<bool>))
    requires Shaped(t, |widths|) && IgnoredHaveSuccessor(t, |widths|)
    requires columns <= |widths| && count < |t|
    requires before == RenderRows(t, widths, fill, columns, count)
    ensures |before.1| == |widths|
    ensures RenderRows(t, widths, fill, columns, count + 1)
        == (if RenderRow(t, widths, fill, count, columns, before.1).1 then before.0
            else before.0 + [RenderRow(t, widths, fill, count, columns, before.1).0],
            RenderRow(t, widths, fill, count, columns, before.1).2)
  {
  }

  /** After a row's pass over `count` columns, each of those columns' flag
      is the one CellOutput leaves for that row's cell. */
  lemma {:induction false} RenderRowFlags(t: Table, widths: seq<nat>, fill: char, row: nat, count: nat, flags: seq<bool>)
    requires Shaped(t, |widths|) && IgnoredHaveSuccessor(t, |widths|)
    requires row < |t| && count <= |widths| && |flags| == |widths|
    ensures forall c | 0 <= c < count ::
              RenderRow(t, widths, fill, row, count, flags).2[c] == CellOutput(t, |widths|, row, c, flags[c]).1
    decreases count
  {
    if count > 0 {
      RenderRowFlags(t, widths, fill, row, count - 1, flags);
    }
  }

  /** The flag of a column Print does not show stays clear. */
  lemma {:induction false} HiddenFlagClear(t: Table, widths: seq<nat>, fill: char, columns: nat, count: nat, c: nat)
    requires Shaped(t, |widths|) && IgnoredHaveSuccessor(t, |widths|)
    requires columns <= c < |widths| && count <= |t|
    ensures !RenderRows(t, widths, fill, columns, count).1[c]
    decreases count
  {
    if count > 0 {
      HiddenFlagClear(t, widths, fill, columns, count - 1, c);
    }
  }

  /** Print reaches row `count` with column c's flag clear when every
      ignored cell above that row in column c has a printed cell below it,
      still above the row. */
  lemma {:induction false} SettledFlagClear(t: Table, widths: seq<nat>, fill: char, columns: nat, count: nat, c: nat)
    requires Shaped(t, |widths|) && IgnoredHaveSuccessor(t, |widths|)
    requires columns <= |widths| && count <= |t| && c < |widths|
    requires forall r | 0 <= r < count && t[r][c].IsIgnore() :: exists r' :: r < r' < count && t[r'][c].IsPrint()
    ensures !RenderRows(t, widths, fill, columns, count).1[c]
    decreases count
  {
    if columns <= c {
      HiddenFlagClear(t, widths, fill, columns, count, c);
    } else if count > 0 {
      var flags := RenderRows(t, widths, fill, columns, count - 1).1;
      RenderRowFlags(t, widths, fill, count - 1, columns, flags);
      var e := t[count - 1][c];
      if !e.IsPrint() {
        assert !e.IsIgnore();
        forall r | 0 <= r < count - 1 && t[r][c].IsIgnore()
          ensures exists r' :: r < r' < count - 1 && t[r'][c].IsPrint()
        {
          var r' :| r < r' < count && t[r'][c].IsPrint();
        }
        SettledFlagClear(t, widths, fill, columns, count - 1, c);
      }
    }
  }

  /** A collection laid down at a settled row, where every record's cursor
      starts, is reached by Print with its column's flag clear, so it prints
      as CollectionCollapses describes. */
  lemma CollectionStartsClear(t: Table, widths: seq<nat>, fill: char, columns: nat, row: nat, column: nat,
                              collection: seq<string>, p: Table)
    requires Shaped(t, |widths|) && IgnoredHaveSuccessor(t, |widths|)
    requires row < |t| && column < |widths| && columns <= |widths| && SettledAbove(t, |widths|, row)
    requires p == Placed(t, |widths|, row, column, collection)
    ensures Shaped(p, |widths|) && IgnoredHaveSuccessor(p, |widths|) && row < |p|
    ensures !RenderRows(p, widths, fill, columns, row).1[column]
  {
    var n := |widths|;
    PlacedCells(t, n, row, column, collection);
    PlacedKeepsSuccessors(t, n, row, column, collection);
    SettledKept(t, p, n, row);
    forall r | 0 <= r < row && p[r][column].IsIgnore()
      ensures exists r' :: r < r' < row && p[r'][column].IsPrint()
    {
    }
    SettledFlagClear(p, widths, fill, columns, row, column);
  }

  /** The lines Print writes to the console. */
  ghost function Render(t: Table, widths: seq<nat>, fill: char, maxWidth: nat): seq<string>
    requires Shaped(t, |widths|) && IgnoredHaveSuccessor(t, |widths|)
  {
    RenderRows(t, widths, fill, VisibleColumns(widths, maxWidth), |t|).0
  }

  /** Every field Print writes fills exactly its column's width, so a row's
      text is as long as the widths of its columns plus the separators. */
  lemma {:induction false} RenderRowLength(t: Table, widths: seq<nat>, fill: char, row: nat, count: nat, flags: seq<bool>)
    requires Shaped(t, |widths|) && IgnoredHaveSuccessor(t, |widths|) && WidthsCover(t, widths)
    requires row < |t| && count <= |widths| && |flags| == |widths|
    ensures |RenderRow(t, widths, fill, row, count, flags).0| == Sum(widths[..count]) + 3 * count
  {
    if count > 0 {
      RenderRowLength(t, widths, fill, row, count - 1, flags);
      assert widths[..count][..count - 1] == widths[..count - 1];
    }
  }

  /** Every line of Print has the same length: the total width of the
      visible columns plus three characters of separator per column. */
  lemma {:induction false} RenderRowsLength(t: Table, widths: seq<nat>, fill: char, columns: nat, count: nat)
    requires Shaped(t, |widths|) && IgnoredHaveSuccessor(t, |widths|) && WidthsCover(t, widths)
    requires columns <= |widths| && count <= |t|
    ensures forall i | 0 <= i < |RenderRows(t, widths, fill, columns, count).0| ::
              |RenderRows(t, widths, fill, columns, count).0[i]| == Sum(widths[..columns]) + 3 * columns
  {
    if count > 0 {
      RenderRowsLength(t, widths, fill, columns, count - 1);
      var before := RenderRows(t, widths, fill, columns, count - 1);
      RenderRowsStep(t, widths, fill, columns, count - 1, before);
      RenderRowLength(t, widths, fill, count - 1, columns, before.1);
    }
  }

  /** AsString's text for one row: every cell's raw representation, dotted
      and ignored ones included, padded to its column's width. */
  function DumpRow(row: seq<Element>, widths: seq<nat>, fill: char): string
    requires |row| <= |widths|
  {
    if row == [] then ""
    else DumpRow(row[..|row| - 1], widths, fill)
         + Pad(row[|row| - 1].representation, widths[|row| - 1], fill) + " | "
  }

  /** AsString's text: one line per table row. */
  function Dump(t: Table, widths: seq<nat>, fill: char): string
    requires Shaped(t, |widths|)
  {
    if t == [] then ""
    else Dump(t[..|t| - 1], widths, fill) + DumpRow(t[|t| - 1], widths, fill) + "\n"
  }

  /** AsString's text for the rows before r, followed by row r's line, is
      its text for the rows up to r. */
  lemma DumpPrefixes(t: Table, widths: seq<nat>, fill: char)
    requires Shaped(t, |widths|)
    ensures forall r | 0 <= r <= |t| :: Shaped(t[..r], |widths|)
    ensures forall r | 0 <= r < |t| ::
              Dump(t[..r + 1], widths, fill) == Dump(t[..r], widths, fill) + DumpRow(t[r], widths, fill) + "\n"
  {
    forall r | 0 <= r < |t|
      ensures Dump(t[..r + 1], widths, fill) == Dump(t[..r], widths, fill) + DumpRow(t[r], widths, fill) + "\n"
    {
      assert t[..r + 1][..r] == t[..r];
    }
  }

  /** With widths covering the cells, each row of AsString's text is as long
      as the total width plus the separators. */
  lemma {:induction false} DumpRowLength(row: seq<Element>, widths: seq<nat>, fill: char)
    requires |row| <= |widths|
    requires forall c | 0 <= c < |row| :: |row[c].representation| <= widths[c]
    ensures |DumpRow(row, widths, fill)| == Sum(widths[..|row|]) + 3 * |row|
  {
    if row != [] {
      DumpRowLength(row[..|row| - 1], widths, fill);
      assert widths[..|row|][..|row| - 1] == widths[..|row| - 1];
    }
  }

  /** AsString holds every row of the table, each as long as the full
      width, so nothing is shortened or dropped. */
  lemma {:induction false} DumpLength(t: Table, widths: seq<nat>, fill: char)
    requires Shaped(t, |widths|) && WidthsCover(t, widths)
    ensures |Dump(t, widths, fill)| == |t| * (Sum(widths) + 3 * |widths| + 1)
  {
    if t != [] {
      var init, last := t[..|t| - 1], t[|t| - 1];
      CoverSplits(t, widths);
      DumpLength(init, widths, fill);
      DumpRowLength(last, widths, fill);
      assert widths[..|widths|] == widths;
      var line := Sum(widths) + 3 * |widths| + 1;
      assert Dump(t, widths, fill) == Dump(init, widths, fill) + DumpRow(last, widths, fill) + "\n";
      assert |Dump(init, widths, fill)| == |init| * line;
      assert |DumpRow(last, widths, fill)| + 1 == line;
      assert |Dump(t, widths, fill)| == |init| * line + line;
      MulStep(|init|, line, |t|);
    }
  }

  /** Dropping the last row keeps the table shaped and covered, and the last
      row's cells fit their columns. */
  lemma CoverSplits(t: Table, widths: seq<nat>)
    requires Shaped(t, |widths|) && WidthsCover(t, widths) && t != []
    ensures Shaped(t[..|t| - 1], |widths|) && WidthsCover(t[..|t| - 1], widths)
    ensures forall c | 0 <= c < |t[|t| - 1]| :: |t[|t| - 1][c].representation| <= widths[c]
  {
  }

  /** One more row of equal length adds that length to the total. */
  lemma MulStep(a: nat, b: nat, c: nat)
    requires c == a + 1
    ensures a * b + b == c * b
  {
  }

  /** The table's header row: every column name as a printed element. */
  function Header(names: seq<string>): (row: seq<Element>)
    ensures |row| == |names|
  {
    seq(|names|, i requires 0 <= i < |names| => Element(names[i], ToBePrinted))
  }

  /** The width of each column name. */
  function Lengths(names: seq<string>): (ws: seq<nat>)
    ensures |ws| == |names|
  {
    seq(|names|, i requires 0 <= i < |names| => |names[i]|)
  }

  /** A one-element collection is stored exactly as AddToRow stores the
      element: printed, at the cursor, with the same width update. */
  lemma SingletonCollectionIsCell(t: Table, n: nat, row: nat, column: nat, width: nat, s: string)
    requires Shaped(t, n) && row < |t| && column < n
    ensures Placed(t, n, row, column, [s]) == t[row := t[row][column := Element(s, ToBePrinted)]]
    ensures CollectionWidth(width, [s]) == Max(width, |s|)
  {
    PlacedCells(t, n, row, column, [s]);
    var p: Table := Placed(t, n, row, column, [s]);
    var u: Table := t[row := t[row][column := Element(s, ToBePrinted)]];
    assert |p| == |u|;
    forall r | 0 <= r < |p| ensures p[r] == u[r] {
      assert |p[r]| == |u[r]|;
      forall c | 0 <= c < n ensures p[r][c] == u[r][c] {
        if c == column && r == row {
          assert p[row + 0][column] == Element(s, CollectionAction(0, 1));
        }
      }
    }
  }

  /**
   * The loop of AddCollectionToRow: writes the elements of `collection` one
   * per row down `column` from `startRow`, classifying each by its index and
   * widening the column, and appends an empty row whenever a further element
   * has no row to go to.
   */
  method PlaceCollection(t: Table, n: nat, widths: seq<nat>, startRow: nat, column: nat, collection: seq<string>)
    returns (placed: Table, newWidths: seq<nat>, row: nat)
    requires Shaped(t, n) && |widths| == n && startRow < |t| && column < n
    ensures placed == Placed(t, n, startRow, column, collection)
    ensures newWidths == widths[column := CollectionWidth(widths[column], collection)]
    ensures row == startRow + |collection|
  {
    placed, newWidths, row := t, widths, startRow;
    var collectionSize := |collection|;
    for index := 0 to collectionSize
      invariant row == startRow + index
      invariant placed == PartlyPlaced(t, n, startRow, column, collection, index)
      invariant newWidths == widths[column := PartialWidth(widths[column], collection, index)]
    {
      var stringEle := collection[index];
      var element := Element(stringEle, ToBePrinted);
      WidthStep(widths[column], collection, index);
      if newWidths[column] < |stringEle| {
        newWidths := newWidths[column := |stringEle|];
      }
      if index == 0 || index == collectionSize - 1 {
        // printed, as constructed
      } else if index == 1 {
        element := element.(action := ToBeDotted);
        if newWidths[column] < 3 {
          newWidths := newWidths[column := 3];
        }
      } else {
        element := element.(action := ToBeIgnored);
      }
      assert element == Element(collection[index], CollectionAction(index, collectionSize));
      assert newWidths == widths[column := PartialWidth(widths[column], collection, index + 1)];
      PlaceNext(t, n, startRow, column, collection, index, element, placed, row);
      placed := placed[row := placed[row][column := element]];
      row := row + 1;
      if index != collectionSize - 1 && |placed| <= row {
        placed := placed + [EmptyRow(n)];
      }
    }
    assert collection[..collectionSize] == collection;
  }

  /** The scan of RDisplay::Print for an ignored cell: walks down `column`
      from `from` to the first cell to be printed. */
  method ScanToPrinted(t: Table, n: nat, column: nat, from: nat) returns (i: nat)
    requires Shaped(t, n) && column < n && from <= |t| && NextPrinted(t, n, column, from) < |t|
    ensures i == NextPrinted(t, n, column, from)
  {
    i := from;
    while !t[i][column].IsPrint()
      invariant from <= i <= NextPrinted(t, n, column, from)
      decreases |t| - i
    {
      i := i + 1;
    }
  }

  /** The body of the inner loop of RDisplay::Print: what one cell writes,
      given whether its column is collapsing, and the flag afterwards. */
  method RenderCell(t: Table, n: nat, rowIndex: nat, columnIndex: nat, collapsing: bool)
    returns (printedElement: string, hasPrintedNext: bool)
    requires Shaped(t, n) && IgnoredHaveSuccessor(t, n) && rowIndex < |t| && columnIndex < n
    ensures (printedElement, hasPrintedNext) == CellOutput(t, n, rowIndex, columnIndex, collapsing)
  {
    var element := t[rowIndex][columnIndex];
    printedElement, hasPrintedNext := "", collapsing;
    if element.IsDot() {
      printedElement := "...";
    } else if element.IsPrint() {
      if !hasPrintedNext {
        printedElement := element.representation;
      }
      hasPrintedNext := false;
    } else {
      if !hasPrintedNext {
        NextPrintedInTable(t, n, rowIndex, columnIndex);
        var i := ScanToPrinted(t, n, columnIndex, rowIndex + 1);
        printedElement := t[i][columnIndex].representation;
        hasPrintedNext := true;
      }
    }
  }

  /** The inner loop of RDisplay::Print: renders the first `columnsToPrint`
      cells of row `rowIndex`, starting from the collapse flags `flags`. */
  method RenderTableRow(t: Table, widths: seq<nat>, fill: char, rowIndex: nat, columnsToPrint: nat, flags: seq<bool>)
    returns (stringRow: string, isRowEmpty: bool, hasPrintedNext: seq<bool>)
    requires Shaped(t, |widths|) && IgnoredHaveSuccessor(t, |widths|)
    requires rowIndex < |t| && columnsToPrint <= |widths| && |flags| == |widths|
    ensures (stringRow, isRowEmpty, hasPrintedNext) == RenderRow(t, widths, fill, rowIndex, columnsToPrint, flags)
  {
    stringRow, isRowEmpty, hasPrintedNext := "", true, flags;
    for columnIndex := 0 to columnsToPrint
      invariant (stringRow, isRowEmpty, hasPrintedNext)
                == RenderRow(t, widths, fill, rowIndex, columnIndex, flags)
    {
      RenderRowStep(t, widths, fill, rowIndex, columnIndex, flags, (stringRow, isRowEmpty, hasPrintedNext));
      var printedElement, collapsing := RenderCell(t, |widths|, rowIndex, columnIndex, hasPrintedNext[columnIndex]);
      hasPrintedNext := hasPrintedNext[columnIndex := collapsing];
      if printedElement != "" {
        isRowEmpty := false;
      }
      stringRow := stringRow + Pad(printedElement, widths[columnIndex], fill) + " | ";
    }
  }

  /** The outer loop of RDisplay::Print: renders every row with the first
      `columnsToPrint` columns, keeping the lines that are not empty. */
  method RenderTable(t: Table, widths: seq<nat>, fill: char, columnsToPrint: nat) returns (lines: seq<string>)
    requires Shaped(t, |widths|) && IgnoredHaveSuccessor(t, |widths|) && columnsToPrint <= |widths|
    ensures lines == RenderRows(t, widths, fill, columnsToPrint, |t|).0
  {
    var hasPrintedNext := seq(|widths|, _ => false);
    var nrRows := |t|;
    lines := [];
    for rowIndex := 0 to nrRows
      invariant (lines, hasPrintedNext) == RenderRows(t, widths, fill, columnsToPrint, rowIndex)
    {
      RenderRowsStep(t, widths, fill, columnsToPrint, rowIndex, (lines, hasPrintedNext));
      var stringRow, isRowEmpty;
      stringRow, isRowEmpty, hasPrintedNext := RenderTableRow(t, widths, fill, rowIndex, columnsToPrint, hasPrintedNext);
      if !isRowEmpty {
        lines := lines + [stringRow];
      }
    }
  }

  /** The loops of RDisplay::AsString: every cell's raw representation in its
      padded column, one line per row. */
  method DumpTable(t: Table, widths: seq<nat>, fill: char) returns (s: string)
    requires Shaped(t, |widths|)
    ensures s == Dump(t, widths, fill)
  {
    DumpPrefixes(t, widths, fill);
    s := "";
    for r := 0 to |t|
      invariant s == Dump(t[..r], widths, fill)
    {
      var row := t[r];
      var line := "";
      for i := 0 to |row|
        invariant line == DumpRow(row[..i], widths, fill)
      {
        line := line + Pad(row[i].representation, widths[i], fill) + " | ";
        assert row[..i + 1][..i] == row[..i];
      }
      assert row[..|row|] == row;
      s := s + line + "\n";
    }
    assert t[..|t|] == t;
  }

  /** The display table of RDataFrame::Display. */
  class RDisplay {
    /** fNColumns: the number of columns. */
    const nColumns: nat
    /** fgMaxWidth: the budget, in characters, for the widths of the printed columns. */
    const maxWidth: nat
    /** fgSeparator: the character std::setfill pads every field with. */
    const fill: char
    /** fTable: the grid of cells, row by row. */
    var table: Table
    /** fWidths: the width of each column. */
    var widths: seq<nat>
    /** fCurrentRow, fCurrentColumn: the write cursor. */
    var currentRow: nat
    var currentColumn: nat
    /** fNextRow: the row where the next record starts. */
    var nextRow: nat

    ghost predicate Valid()
      reads this
    {
      && |widths| == nColumns
      && Shaped(table, nColumns)
      && currentRow < nextRow == |table|
      && (if nColumns == 0 then currentColumn == 0 else currentColumn < nColumns)
      && WidthsCover(table, widths)
      && IgnoredHaveSuccessor(table, nColumns)
      && SettledAbove(table, nColumns, currentRow)
    }

    /** The cursor has moved one column on from (row, column) over table t,
        with `next` the row where the next record starts: past the last
        column it wraps to a new record at `next`, appending one blank row. */
    ghost predicate MovedFrom(t: Table, row: nat, column: nat, next: nat)
      reads this
    {
      if column + 1 == nColumns then
        table == t + [EmptyRow(nColumns)] && currentRow == next && currentColumn == 0 && nextRow == next + 1
      else
        table == t && currentRow == row && currentColumn == column + 1 && nextRow == next
    }

    /** Creates the table and writes the column names as its first row. */
    constructor (columnNames: seq<string>, maxWidth: nat, fill: char)
      ensures Valid()
      ensures nColumns == |columnNames| && this.maxWidth == maxWidth && this.fill == fill
      ensures widths == Lengths(columnNames)
      ensures table == if columnNames == [] then [[]] else [Header(columnNames), EmptyRow(|columnNames|)]
      ensures currentColumn == 0
      ensures currentRow == if columnNames == [] then 0 else 1
      ensures nextRow == currentRow + 1
    {
      var n := |columnNames|;
      nColumns := n;
      this.maxWidth := maxWidth;
      this.fill := fill;
      widths := seq(n, _ => 0);
      table := [EmptyRow(n)];
      currentRow, currentColumn, nextRow := 0, 0, 1;
      new;
      assert Header(columnNames[..0]) + EmptyRow(n) == EmptyRow(n);
      assert EmptyRow(0) == [];
      for i := 0 to n
        invariant Valid() && nColumns == n
        invariant n == 0 ==> table == [[]] && currentRow == 0 && nextRow == 1
        invariant widths == Lengths(columnNames[..i]) + seq(n - i, _ => 0)
        invariant i < n ==> table == [Header(columnNames[..i]) + EmptyRow(n - i)]
                            && currentRow == 0 && currentColumn == i && nextRow == 1
        invariant 0 < i == n ==> table == [Header(columnNames), EmptyRow(n)]
                                 && currentRow == 1 && currentColumn == 0 && nextRow == 2
      {
        ghost var before := table[0];
        AddToRow(columnNames[i]);
        ghost var header := before[i := Element(columnNames[i], ToBePrinted)];
        assert [before][0 := header] == [header];
        assert header == Header(columnNames[..i + 1]) + EmptyRow(n - i - 1);
        assert widths == Lengths(columnNames[..i + 1]) + seq(n - i - 1, _ => 0);
        if i + 1 == n {
          assert columnNames[..i + 1] == columnNames;
          assert header == Header(columnNames);
        }
      }
    }

    /** Moves the cursor to the next column, or past the last column to the
        first column of a new record at fNextRow. */
    method MovePosition()
      requires Valid() && nColumns > 0
      modifies this
      ensures Valid()
      ensures MovedFrom(old(table), old(currentRow), old(currentColumn), old(nextRow))
      ensures widths == old(widths)
    {
      currentColumn := currentColumn + 1;
      if currentColumn == nColumns {
        currentRow := nextRow;
        currentColumn := 0;
        nextRow := currentRow + 1;
        AppendBlankKeepsSuccessors(table, nColumns);
        table := table + [EmptyRow(nColumns)];
      }
    }

    /** Stores one value at the cursor, widens its column to fit it and moves
        the cursor on. */
    method AddToRow(s: string)
      requires Valid() && nColumns > 0
      modifies this
      ensures Valid()
      ensures widths == old(widths)[old(currentColumn) := Max(old(widths[currentColumn]), |s|)]
      ensures MovedFrom(old(table)[old(currentRow) := old(table[currentRow])[old(currentColumn) := Element(s, ToBePrinted)]],
                        old(currentRow), old(currentColumn), old(nextRow))
    {
      if widths[currentColumn] < |s| {
        widths := widths[currentColumn := |s|];
      }
      WritePrintedKeepsSuccessors(table, nColumns, currentRow, currentColumn, s);
      SettledKept(table, table[currentRow := table[currentRow][currentColumn := Element(s, ToBePrinted)]],
                  nColumns, currentRow);
      table := table[currentRow := table[currentRow][currentColumn := Element(s, ToBePrinted)]];
      MovePosition();
    }

    /** Lays a collection down the current column, one element per row from
        the current row on, marks it for shortening, and moves the cursor on;
        the next record starts below the collection. */
    method AddCollectionToRow(collection: seq<string>)
      requires Valid() && nColumns > 0
      modifies this
      ensures Valid()
      ensures widths == old(widths)[old(currentColumn) := CollectionWidth(old(widths[currentColumn]), collection)]
      ensures MovedFrom(Placed(old(table), nColumns, old(currentRow), old(currentColumn), collection),
                        old(currentRow), old(currentColumn), Max(old(nextRow), old(currentRow) + |collection|))
    {
      var placed, newWidths, row := PlaceCollection(table, nColumns, widths, currentRow, currentColumn, collection);
      PlacedKeepsSuccessors(table, nColumns, currentRow, currentColumn, collection);
      PlacedWidthsCover(table, widths, currentRow, currentColumn, collection);
      PlacedCells(table, nColumns, currentRow, currentColumn, collection);
      SettledKept(table, placed, nColumns, currentRow);
      table, widths := placed, newWidths;
      nextRow := if nextRow > row then nextRow else row;
      MovePosition();
    }

    /** How many trailing columns Print drops: none when all widths fit in
        the budget, otherwise all from the first column whose prefix total
        exceeds it. */
    method GetNColumnsToShorten() returns (r: nat)
      requires Valid()
      ensures r <= nColumns
      ensures r == 0 <==> Sum(widths) <= maxWidth
      ensures r == nColumns - VisibleColumns(widths, maxWidth)
    {
      var totalWidth := 0;
      var size := |widths|;
      for i := 0 to size
        invariant totalWidth == Sum(widths[..i]) <= maxWidth
      {
        totalWidth := totalWidth + widths[i];
        assert widths[..i + 1][..i] == widths[..i];
        if totalWidth > maxWidth {
          VisibleColumnsUnique(widths, maxWidth, i);
          PrefixSumMonotone(widths, i + 1, size);
          assert widths[..size] == widths;
          return size - i;
        }
      }
      assert widths[..size] == widths;
      return 0;
    }

    /** The lines Print writes: the columns that fit the budget, collections
        collapsed to first element, dots and last element, empty rows left
        out. */
    method Print() returns (lines: seq<string>)
      requires Valid()
      ensures lines == Render(table, widths, fill, maxWidth)
    {
      var shorten := GetNColumnsToShorten();
      lines := RenderTable(table, widths, fill, nColumns - shorten);
    }

    /** The whole table as text: every cell's raw representation in its
        padded column, one line per row. */
    method AsString() returns (s: string)
      requires Valid()
      ensures s == Dump(table, widths, fill)
    {
      s := DumpTable(table, widths, fill);
    }
  }
}
