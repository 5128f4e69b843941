/**
 * Concrete runs of the sheet, on the content model of module `Grids`: the
 * scenarios of the repository's own tests, and the inputs on which the
 * source as written differs from the model.
 */
module Scenarios {
  import opened Wrappers
  import opened Common
  import opened Cells
  import opened Grids
  import opened Sheets

  /** A set that succeeds places the classified content in the fitted
      storage. */
  lemma SetStep(g: Grid, pos: Position, text: string, parse: Parser, c: Content)
    requires pos.IsValid() && Classify(text, parse) == Success(c)
    ensures SetCellState(g, pos, text, parse) == (Place(Fitted(g, pos.row, pos.col), pos.row, pos.col, c), Pass)
  {
  }

  /** "C2" set and then cleared: the storage shrinks to nothing, so `GetCell`
      as written would read a row that is not stored, while `Lookup` finds
      nothing. Clearing "A1" and "J10" afterwards changes nothing. */
  lemma SetThenClearScenario(parse: Parser)
    ensures var c2 := Position(1, 2);
      var (g1, r1) := SetCellState([], c2, "Me gusta", parse);
      var (g2, r2) := ClearCellState(g1, c2);
      && r1 == Pass && r2 == Pass && g2 == []
      && !InRange(g2, c2.row, c2.col) && Lookup(g2, c2) == None
      && ClearCellState(g2, Position(0, 0)) == ([], Pass)
      && ClearCellState(g2, Position(9, 9)) == ([], Pass)
  {
    var c2 := Position(1, 2);
    var f := Fitted([], 1, 2);
    assert Resized<Row>([], 2, []) == [[], []];
    assert Resized<Slot>([], 3, None) == [None, None, None];
    assert f == [[], [None, None, None]];
    var g1 := Place(f, 1, 2, Text("Me gusta"));
    assert SetCellState([], c2, "Me gusta", parse) == (g1, Pass);
    var cleared := Place(g1, 1, 2, Empty);
    var t := TrimmedRows(cleared);
    assert Trimmed(cleared[1], SlotEmpty) == [] by {
      TrimmedUnique(cleared[1], SlotEmpty, 0);
    }
    assert t == [[], []];
    TrimmedUnique(t, RowEmpty, 0);
  }

  const DivByZero: Content := Formula(ParsedFormula("1/0"))
  const OnePlusTwo: Content := Formula(ParsedFormula("1+2"))
  const Meow: Content := Text("meow")

  /** The storage after "=1/0" in A1 and "meow" in A2: one cell in each
      of two rows. */
  lemma PrintScenarioFirstColumn(parse: Parser)
    requires parse("1/0") == Some(ParsedFormula("1/0"))
    ensures var g1 := SetCellState([], Position(0, 0), "=1/0", parse).0;
      SetCellState(g1, Position(1, 0), "meow", parse).0 == [[Some(DivByZero)], [Some(Meow)]]
  {
    assert "=1/0"[1..] == "1/0";
    assert Resized<Row>([], 1, []) == [[]];
    assert Resized<Slot>([], 1, None) == [None];
    assert Fitted([], 0, 0) == [[None]];
    SetStep([], Position(0, 0), "=1/0", parse, DivByZero);
    var g1 := [[Some(DivByZero)]];
    assert [None][0 := Some(DivByZero)] == [Some(DivByZero)];
    assert Place([[None]], 0, 0, DivByZero) == g1;
    assert Resized(g1, 2, []) == g1 + [[]];
    assert Fitted(g1, 1, 0) == [[Some(DivByZero)], [None]];
    SetStep(g1, Position(1, 0), "meow", parse, Meow);
    assert [None][0 := Some(Meow)] == [Some(Meow)];
    assert Place([[Some(DivByZero)], [None]], 1, 0, Meow) == [[Some(DivByZero)], [Some(Meow)]];
  }

  /** The storage after "=1/0" in A1, "meow" in A2 and "=1+2" in B2, with a
      parser that renders both expressions as written. */
  lemma PrintScenarioStorage(parse: Parser)
    requires parse("1/0") == Some(ParsedFormula("1/0")) && parse("1+2") == Some(ParsedFormula("1+2"))
    ensures var g1 := SetCellState([], Position(0, 0), "=1/0", parse).0;
      var g2 := SetCellState(g1, Position(1, 0), "meow", parse).0;
      SetCellState(g2, Position(1, 1), "=1+2", parse).0 == [[Some(DivByZero)], [Some(Meow), Some(OnePlusTwo)]]
  {
    PrintScenarioFirstColumn(parse);
    var g2 := [[Some(DivByZero)], [Some(Meow)]];
    assert "=1+2"[1..] == "1+2";
    assert Resized(g2, 2, []) == g2;
    assert Resized(g2[1], 2, None) == [Some(Meow), None];
    assert Fitted(g2, 1, 1) == [[Some(DivByZero)], [Some(Meow), None]];
    SetStep(g2, Position(1, 1), "=1+2", parse, OnePlusTwo);
    assert [Some(Meow), None][1 := Some(OnePlusTwo)] == [Some(Meow), Some(OnePlusTwo)];
    assert Place([[Some(DivByZero)], [Some(Meow), None]], 1, 1, OnePlusTwo) == [[Some(DivByZero)], [Some(Meow), Some(OnePlusTwo)]];
  }

  /** That storage is two rows of two columns and prints as "=1/0", a blank
      field, and "meow", "=1+2". */
  lemma PrintScenarioTexts()
    ensures var g := [[Some(DivByZero)], [Some(Meow), Some(OnePlusTwo)]];
      MaxLength(g) == 2 && Layout(g, 2, SlotText) == "=1/0\t\nmeow\t=1+2\n"
  {
    var g := [[Some(DivByZero)], [Some(Meow), Some(OnePlusTwo)]];
    assert |g[1]| == 2;
    MaxLengthUnique(g, 2);
    assert SlotText(Some(DivByZero)) == "=1/0" && SlotText(Some(OnePlusTwo)) == "=1+2";
    assert Fields(g[0], 2, SlotText) == ["=1/0", ""];
    assert Fields(g[1], 2, SlotText) == ["meow", "=1+2"];
    assert Join(["=1/0", ""]) == "=1/0\t";
    assert Join(["meow", "=1+2"]) == "meow\t=1+2";
    assert g[..1] == [g[0]] && g[..1][..0] == [];
    assert Layout(g[..1], 2, SlotText) == "=1/0\t\n";
    assert "=1/0\t\n" + "meow\t=1+2\n" == "=1/0\t\nmeow\t=1+2\n";
  }

  /** Clearing B2 then drops the second column: two rows of one column. */
  lemma PrintScenarioClear()
    ensures var g := ClearCellState([[Some(DivByZero)], [Some(Meow), Some(OnePlusTwo)]], Position(1, 1)).0;
      g == [[Some(DivByZero)], [Some(Meow)]] && MaxLength(g) == 1
  {
    var cleared := [[Some(DivByZero)], [Some(Meow), Some(Empty)]];
    assert [Some(Meow), Some(OnePlusTwo)][1 := Some(Empty)] == [Some(Meow), Some(Empty)];
    assert Place([[Some(DivByZero)], [Some(Meow), Some(OnePlusTwo)]], 1, 1, Empty) == cleared;
    var t := [[Some(DivByZero)], [Some(Meow)]];
    assert TrimmedRows(cleared) == t by {
      TrimmedUnique(cleared[0], SlotEmpty, 1);
      TrimmedUnique(cleared[1], SlotEmpty, 1);
      assert cleared[0][..1] == t[0] && cleared[1][..1] == t[1];
    }
    TrimmedUnique(t, RowEmpty, 2);
    assert t[..2] == t;
    MaxLengthUnique(t, 1);
  }

  /** "x" in A1 and "y" in A3 leave row 2 stored but empty. */
  lemma EmptyRowStorage(parse: Parser)
    ensures var g1 := SetCellState([], Position(0, 0), "x", parse).0;
      SetCellState(g1, Position(2, 0), "y", parse).0 == [[Some(Text("x"))], [], [Some(Text("y"))]]
  {
    assert Resized<Row>([], 1, []) == [[]];
    assert Resized<Slot>([], 1, None) == [None];
    assert Fitted([], 0, 0) == [[None]];
    SetStep([], Position(0, 0), "x", parse, Text("x"));
    var g1 := [[Some(Text("x"))]];
    assert [None][0 := Some(Text("x"))] == [Some(Text("x"))];
    assert Place([[None]], 0, 0, Text("x")) == g1;
    assert Resized(g1, 3, []) == g1 + [[], []];
    assert Fitted(g1, 2, 0) == [[Some(Text("x"))], [], [None]];
    SetStep(g1, Position(2, 0), "y", parse, Text("y"));
    assert [None][0 := Some(Text("y"))] == [Some(Text("y"))];
    assert Place([[Some(Text("x"))], [], [None]], 2, 0, Text("y")) == [[Some(Text("x"))], [], [Some(Text("y"))]];
  }

  /** Printed with the width of one column, the empty row is a single blank
      field, while the source writes a tab for it: a second field no other
      row has. */
  lemma EmptyRowTexts()
    ensures var g := [[Some(Text("x"))], [], [Some(Text("y"))]];
      && MaxLength(g) == 1
      && Layout(g, 1, SlotText) == "x\n\ny\n"
      && LineAsWritten(g[1], 1, SlotText) == "\t\n"
  {
    var g := [[Some(Text("x"))], [], [Some(Text("y"))]];
    assert |g[0]| == 1;
    MaxLengthUnique(g, 1);
    assert SlotText(Some(Text("x"))) == "x" && SlotText(Some(Text("y"))) == "y";
    assert Fields(g[0], 1, SlotText) == ["x"];
    assert Fields(g[1], 1, SlotText) == [""];
    assert Fields(g[2], 1, SlotText) == ["y"];
    assert g[..2] == [g[0], g[1]] && g[..2][..1] == [g[0]] && g[..1][..0] == [];
    assert Layout(g[..1], 1, SlotText) == "x\n";
    assert Layout(g[..2], 1, SlotText) == "x\n\n";
    assert "x\n\n" + "y\n" == "x\n\ny\n";
    LineAsWrittenEmptyRow(1, SlotText);
  }

  /** The three `SetCell` calls of the print scenario on a new sheet. */
  method BuildPrintSheet(parse: Parser) returns (sheet: Sheet)
    requires parse("1/0") == Some(ParsedFormula("1/0")) && parse("1+2") == Some(ParsedFormula("1+2"))
    ensures fresh(sheet) && sheet.Valid() && fresh(sheet.placement.Keys)
    ensures sheet.grid == [[Some(DivByZero)], [Some(Meow), Some(OnePlusTwo)]]
  {
    sheet := BuildFirstColumn(parse);
    var r := sheet.SetCell(Position(1, 1), "=1+2", parse);
    PrintScenarioFirstColumn(parse);
    PrintScenarioStorage(parse);
  }

  /** The first two `SetCell` calls of the print scenario on a new sheet. */
  method BuildFirstColumn(parse: Parser) returns (sheet: Sheet)
    requires parse("1/0") == Some(ParsedFormula("1/0"))
    ensures fresh(sheet) && sheet.Valid() && fresh(sheet.placement.Keys)
    ensures sheet.grid == [[Some(DivByZero)], [Some(Meow)]]
  {
    sheet := new Sheet();
    var r := sheet.SetCell(Position(0, 0), "=1/0", parse);
    r := sheet.SetCell(Position(1, 0), "meow", parse);
    PrintScenarioFirstColumn(parse);
  }

  /** The print scenario on a sheet: its size, its texts, and its size once
      B2 is cleared. */
  method PrintOnSheet(parse: Parser) returns (texts: string, size: Size, cleared: Size)
    requires parse("1/0") == Some(ParsedFormula("1/0")) && parse("1+2") == Some(ParsedFormula("1+2"))
    ensures size == Size(2, 2) && texts == "=1/0\t\nmeow\t=1+2\n" && cleared == Size(2, 1)
  {
    var sheet := BuildPrintSheet(parse);
    PrintScenarioTexts();
    size := sheet.GetPrintableSize();
    texts := sheet.PrintTexts();
    var r := sheet.ClearCell(Position(1, 1));
    PrintScenarioClear();
    cleared := sheet.GetPrintableSize();
  }

  /** The clear scenario on a sheet: after "C2" is set and cleared,
      `GetCell("C2")` finds nothing and the sheet is empty. */
  method SetThenClearOnSheet(parse: Parser) returns (found: Result<Cell?, Exception>, size: Size)
    ensures found == Success(null) && size == Size(0, 0)
  {
    var sheet := new Sheet();
    var r := sheet.SetCell(Position(1, 2), "Me gusta", parse);
    r := sheet.ClearCell(Position(1, 2));
    SetThenClearScenario(parse);
    found := sheet.GetCell(Position(1, 2));
    size := sheet.GetPrintableSize();
  }
}
