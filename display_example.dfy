/** A worked example of RDataFrame's Display: how a collection added to a
    one-column display is stored and then collapsed by Print. */
module DisplayExample {
  import opened RDFDisplay

  /** The table of a one-column display named "v" after the collection
      a, b, c, d, e is added: a printed, b dotted, c and d ignored, e
      printed, and the blank row of the next record. */
  function CollapsedTable(): Table {
    [[Element("v", ToBePrinted)], [Element("a", ToBePrinted)], [Element("b", ToBeDotted)],
     [Element("c", ToBeIgnored)], [Element("d", ToBeIgnored)], [Element("e", ToBePrinted)], [Blank]]
  }

  /** AddCollectionToRow lays the collection down exactly as CollapsedTable
      shows, and the cursor's move to the next record appends the blank row. */
  lemma CollapsedTableBuilt()
    ensures Placed([Header(["v"]), EmptyRow(1)], 1, 1, 0, ["a", "b", "c", "d", "e"]) + [EmptyRow(1)]
            == CollapsedTable()
  {
    var coll := ["a", "b", "c", "d", "e"];
    var t: Table := [Header(["v"]), EmptyRow(1)];
    PlacedCells(t, 1, 1, 0, coll);
    var p: Table := Placed(t, 1, 1, 0, coll);
    var u := p + [EmptyRow(1)];
    var e := CollapsedTable();
    assert |u| == |e| == 7;
    forall r | 0 <= r < 7 ensures u[r] == e[r] {
      assert |u[r]| == 1;
      if r == 0 {
        assert u[0][0] == t[0][0];
      } else if r < 6 {
        assert u[r][0] == p[1 + (r - 1)][0] == Element(coll[r - 1], CollectionAction(r - 1, 5));
      } else {
        assert u[6] == EmptyRow(1);
      }
      assert u[r] == [u[r][0]];
    }
  }

  /** Print's pass over a row of a one-column table. */
  lemma OneColumnRow(t: Table, width: nat, fill: char, row: nat, flag: bool)
    requires Shaped(t, 1) && IgnoredHaveSuccessor(t, 1) && row < |t|
    ensures RenderRow(t, [width], fill, row, 1, [flag])
            == (Pad(CellOutput(t, 1, row, 0, flag).0, width, fill) + " | ",
                CellOutput(t, 1, row, 0, flag).0 == "", [CellOutput(t, 1, row, 0, flag).1])
  {
    var out := CellOutput(t, 1, row, 0, flag);
    RenderRowStep(t, [width], fill, row, 0, [flag], ("", true, [flag]));
    assert "" + Pad(out.0, width, fill) == Pad(out.0, width, fill);
    assert [flag][0 := out.1] == [out.1];
  }

  /** One row of a one-column table, as Print's pass adds it: the cell
      writes `text` and leaves the flag at `after`. */
  lemma OneColumnStep(t: Table, width: nat, fill: char, count: nat, lines: seq<string>, flag: bool,
                      text: string, after: bool, next: seq<string>)
    requires Shaped(t, 1) && IgnoredHaveSuccessor(t, 1) && count < |t|
    requires RenderRows(t, [width], fill, 1, count) == (lines, [flag])
    requires CellOutput(t, 1, count, 0, flag) == (text, after)
    requires next == if text == "" then lines else lines + [Pad(text, width, fill) + " | "]
    ensures RenderRows(t, [width], fill, 1, count + 1) == (next, [after])
  {
    RenderRowsStep(t, [width], fill, 1, count, (lines, [flag]));
    OneColumnRow(t, width, fill, count, flag);
  }

  /** What Print writes for each cell of the collapsed table, given the
      collapse flag its pass carries there. */
  lemma CollapsedCellOutputs()
    ensures Shaped(CollapsedTable(), 1) && IgnoredHaveSuccessor(CollapsedTable(), 1)
    ensures CellOutput(CollapsedTable(), 1, 0, 0, false) == ("v", false)
    ensures CellOutput(CollapsedTable(), 1, 1, 0, false) == ("a", false)
    ensures CellOutput(CollapsedTable(), 1, 2, 0, false) == ("...", false)
    ensures CellOutput(CollapsedTable(), 1, 3, 0, false) == ("e", true)
    ensures CellOutput(CollapsedTable(), 1, 4, 0, true) == ("", true)
    ensures CellOutput(CollapsedTable(), 1, 5, 0, true) == ("", false)
    ensures CellOutput(CollapsedTable(), 1, 6, 0, false) == ("", false)
  {
    var t := CollapsedTable();
    assert IgnoredHaveSuccessor(t, 1) by {
      assert t[5][0].IsPrint();
    }
    assert NextPrinted(t, 1, 0, 4) == 5;
  }

  /** Print on that table, with the column three characters wide: the
      header, the first element, the dots and the last element; the rows of
      the ignored elements, of the already shown last element and the blank
      row are all empty and left out. */
  lemma CollapsedTablePrints()
    ensures Shaped(CollapsedTable(), 1) && IgnoredHaveSuccessor(CollapsedTable(), 1)
    ensures Render(CollapsedTable(), [3], ' ', 80) == ["v   | ", "a   | ", "... | ", "e   | "]
  {
    var t := CollapsedTable();
    CollapsedCellOutputs();
    assert [3][..1] == [3];
    assert VisibleColumns([3], 80) == 1;
    assert Pad("v", 3, ' ') + " | " == "v   | " by { assert seq(2, _ => ' ') == "  "; }
    assert Pad("a", 3, ' ') + " | " == "a   | " by { assert seq(2, _ => ' ') == "  "; }
    assert Pad("e", 3, ' ') + " | " == "e   | " by { assert seq(2, _ => ' ') == "  "; }
    assert Pad("...", 3, ' ') + " | " == "... | ";
    assert RenderRows(t, [3], ' ', 1, 0) == ([], [false]) by {
      assert seq(1, _ => false) == [false];
    }
    var v, a, d, e := "v   | ", "a   | ", "... | ", "e   | ";
    OneColumnStep(t, 3, ' ', 0, [], false, "v", false, [v]);
    OneColumnStep(t, 3, ' ', 1, [v], false, "a", false, [v, a]);
    OneColumnStep(t, 3, ' ', 2, [v, a], false, "...", false, [v, a, d]);
    OneColumnStep(t, 3, ' ', 3, [v, a, d], false, "e", true, [v, a, d, e]);
    OneColumnStep(t, 3, ' ', 4, [v, a, d, e], true, "", true, [v, a, d, e]);
    OneColumnStep(t, 3, ' ', 5, [v, a, d, e], true, "", false, [v, a, d, e]);
    OneColumnStep(t, 3, ' ', 6, [v, a, d, e], false, "", false, [v, a, d, e]);
  }

  /** A display with one column "v" to which the collection a, b, c, d, e is
      added prints the header, the first element, the dots and the last
      element, and nothing else. */
  method ShowCollection() returns (lines: seq<string>)
    ensures lines == ["v   | ", "a   | ", "... | ", "e   | "]
  {
    var display := new RDisplay(["v"], 80, ' ');
    display.AddCollectionToRow(["a", "b", "c", "d", "e"]);
    CollapsedTableBuilt();
    CollapsedTablePrints();
    assert display.table == CollapsedTable();
    assert display.widths == [3];
    lines := display.Print();
  }
}
