# A verified model of the spreadsheet sheet

This project models the core of a small C++ spreadsheet in Dafny. It has three parts:

- **Cell positions and A1 notation.** A position is a 0-based (row, column) pair, valid below 16384 in each coordinate. `ToString` and `FromString` convert between a position and its A1 name. Columns are written as bijective base-26 letters ("A" … "Z", "AA", …) and rows as the 1-based decimal number.
- **Cell content.** A cell holds nothing, literal text or a formula. `Set` classifies raw text:
  - "" clears the cell.
  - "=" followed by at least one character is a formula, when the formula engine parses it.
  - Anything else is text.

  `GetText` returns the text for editing. `GetValue` returns the value shown, without one leading apostrophe.
- **The sparse sheet.** The sheet stores rows of optional cells, and the width of the widest row. Right after a shrink, each row ends at its last non-empty cell. `SetCell` can still leave an empty cell last in a row, for example when it sets "" in C1 of an empty sheet, or when the formula in a new cell fails to parse.
  - `SetCell` grows the storage (`Fit`).
  - `ClearCell` empties a cell and shrinks the storage (`Shrink`, `DropTail`) when that cell ended its row.
  - `GetCell` reads a cell back.
  - `PrintTexts` writes the sheet as tab-separated, newline-terminated rows.

The modules follow the source:

- `Common` models `common.h`.
- `A1Notation` models `structures.cpp`.
- `Cells` models `cell.h` and `cell.cpp`. `Cell` is a class whose `content` field `Set` and `Clear` overwrite.
- `Sheets` models `sheet.h` and `sheet.cpp`. `Sheet` is a class whose `rows` and `columnsCount` fields the methods update.
- `Grids` is the value-level specification of the storage. It gives the content of every slot and what each sheet operation does to it.
- `Scenarios` holds concrete runs taken from the repository's tests, and the inputs behind the findings.

The `Sheet` class carries two ghost fields:

- `grid` holds the content of each stored slot.
- `placement` says where each stored cell sits, which keeps the cells of different slots distinct.

`Valid()` ties the cells to `grid`, and it also keeps `columnsCount` equal to the longest stored row. Every method is proved against the `Grids` function that says what it does, and the properties are proved about those functions.

The formula engine is not part of this model. A parsed formula is known only by the canonical text of its expression. The parser (`Parser`, `None` for a malformed formula) and the evaluator (`Evaluator`, a number or an error) are parameters.

## Model

| member | source | states |
|---|---|---|
| Common.Position.Equals | src/common.h:65-67 | `==` compares both coordinates. `EqualsIsComponentwise` ties it to equality of positions |
| Common.Position.Less | src/common.h:69-71 | `<` holds when both coordinates are smaller. `LessIsStrictOrder` and `LessIsNotTotal` state its properties |
| Common.Position.IsValid | src/common.h:73-75 | both coordinates are in [0, 16384). `NoneIsInvalid` and `ValidIffNamed` state its properties |
| Common.EqualsIsComponentwise | src/common.h:65-67 | two positions are equal exactly when their rows and their columns are |
| Common.NoneIsInvalid | src/common.h:73-83 | the "no position" answer (-1, -1) is not a valid position |
| Common.LessIsStrictOrder | src/common.h:69-71 | `<` on positions is irreflexive, asymmetric and transitive |
| Common.LessIsNotTotal | src/common.h:69-71 | `<` is not total: two distinct positions can be unordered |
| A1Notation.IsUpper | src/structures.cpp:34 | the test `std::isalpha(c) && std::isupper(c)` on an ASCII character: 'A' to 'Z' |
| A1Notation.IsDigit | src/structures.cpp:62-63 | the test `std::isdigit(c)` on an ASCII character: '0' to '9' |
| A1Notation.Pow | src/structures.cpp:46-49 | the power `std::pow(LETTERS, k)` computes, as an exact natural number. `ConvertColumn` is proved with it |
| A1Notation.UpperPrefixLength | src/structures.cpp:33-35 | where the search for the first non-upper-case character stops: everything before is upper case, the character there is not |
| A1Notation.StepIdentity | src/structures.cpp:22-24 | the column loop's step `(c - (c-1) % 26) / 26` equals `(c - 1) / 26` |
| A1Notation.ColumnName | src/structures.cpp:20-25 | the letters the column loop builds for a 1-based column number: bijective base 26, "" for 0. `ColumnNameShape`, `ColumnNumberOfName` and `ColumnNameOfNumber` state its properties |
| A1Notation.ColumnNumber | src/structures.cpp:39-52 | the sum `convert_column` computes before subtracting one: each letter ('A' counting 1) times 26 to the power of its place. `ColumnNumberPositive` and the two inverse lemmas state its properties |
| A1Notation.ColumnNameStep | src/structures.cpp:21-25 | one loop step prepends the last letter of the column name and leaves the name of a smaller number |
| A1Notation.ToString | src/structures.cpp:14-27 | the loop builds exactly the column letters and then the decimal row number of a valid position, and "" for an invalid one |
| A1Notation.ConvertColumn | src/structures.cpp:39-52 | the sum of digit times 26 to the power of its place, minus one, is the column number the letters denote, minus one |
| A1Notation.FromString | src/structures.cpp:29-69 | the method returns exactly what the parsing rules give |
| A1Notation.NameExamples | src/structures.cpp:18-26 | column 0 is "A", column 25 is "Z", column 26 is "AA", and (0, 0) is "A1" |
| A1Notation.ColumnNameShape | src/structures.cpp:21-25 | column letters are upper case, at most three for a valid column, and empty only for number 0 |
| A1Notation.ColumnNumberOfName | src/structures.cpp:21-25 | reading back the letters written for a column number gives the number |
| A1Notation.ColumnNameOfNumber | src/structures.cpp:39-52 | every run of capital letters is the name written for the number it denotes. With `ColumnNumberOfName`, the two conversions are inverse |
| A1Notation.Name | src/structures.cpp:14-27 | the name `ToString` returns, "" for an invalid position. Its properties are in `NameShape`, `ValidIffNamed` and `RoundTrip` |
| A1Notation.Parse | src/structures.cpp:29-69 | the position `FromString` returns, `NONE` for malformed input. Its properties are in `ParseRejects`, `RoundTrip` and the examples |
| A1Notation.Decimal | src/structures.cpp:26 | `std::to_string` of a natural number: its decimal digits, most significant first. `DecimalShape` and `DecimalLength` state its properties |
| A1Notation.DecimalValue | src/structures.cpp:54-56 | what `std::stoi` reads from a run of decimal digits. `DecimalShape` shows it reads `Decimal(n)` back as n |
| A1Notation.DecimalShape | src/structures.cpp:26 | the decimal form of a number is a non-empty run of digits that reads back as the number |
| A1Notation.ColumnNumberPositive | src/structures.cpp:39-52 | a non-empty run of letters denotes a column number of at least one |
| A1Notation.ValidIffNamed | src/structures.cpp:15-26 | a position has a non-empty name exactly when it is valid |
| A1Notation.UpperPrefixOfConcat | src/structures.cpp:33-37 | the split point of letters followed by a non-letter is right after the letters |
| A1Notation.NameShape | src/structures.cpp:18-26 | the name of a valid position is one to three upper-case letters followed by the digits of row + 1 |
| A1Notation.RoundTrip | src/structures.cpp:14-69 | `FromString(ToString(p)) == p` for every valid position |
| A1Notation.DecimalLength | src/structures.cpp:30-31 | a number below 10^k has at most k digits, so every name fits the 17-character limit |
| A1Notation.ParseRejects | src/structures.cpp:30-66 | `FromString` gives "no position" exactly when the input is too long, has no leading letters, has no row part, has over three letters or has a non-digit in the row part |
| A1Notation.ParseRejectExamples | src/structures.cpp:30-66 | "a1", "1A", "ABCD1", "A1B" and "A" are rejected |
| A1Notation.ParseAcceptExamples | src/structures.cpp:67-68 | "C2" is (1, 2), and "A0" is (-1, 0) because validity is not checked |
| Cells.WellFormed | src/cell.cpp:5-15 | the invariant `Set` keeps: a text cell never holds "", because "" clears the cell instead. `Classify`, `TextIsEmptyIffEmpty` and `TextValueLaw` rely on it |
| Cells.GetText | src/cell.h:24-76 | the text for editing is "" exactly for empty well-formed content, and a formula's text starts with the formula sign |
| Cells.GetValue | src/cell.h:20-72 | the value is text exactly when the content is not a formula, and then it is the text for editing, or that text without its leading escape sign |
| Cells.Classify | src/cell.cpp:5-15 | the content `Set` installs is well-formed, is empty exactly for "", and the only failure is a formula exception |
| Cells.Cell.constructor | src/cell.h:85 | a new cell is empty |
| Cells.Cell.Clear | src/cell.h:78-80 | the cell is empty afterwards, whatever it held |
| Cells.Cell.Set | src/cell.cpp:5-15 | the new content and the outcome are those `Assigned` gives for the old content and the text |
| Cells.Assigned | src/cell.cpp:5-15 | the effect of `Set` on a cell's content: the classified content and no exception, or the old content and the exception. `AssignedLaw` states its properties and `Cell.Set` is proved against it |
| Cells.AssignedLaw | src/cell.cpp:5-15 | `Set` succeeds exactly when the text classifies, and then installs the classified content whatever was there. Otherwise it throws a formula exception and keeps the content |
| Cells.EmptyShowsNothing | src/cell.h:18-27 | empty content has text "" and value "" |
| Cells.TextIsEmptyIffEmpty | src/cell.h:24-60 | the text of well-formed content is "" exactly when the content is empty |
| Cells.TextRoundTrip | src/cell.cpp:11-14 | non-empty text that is not a formula is stored verbatim, and `GetText` gives it back |
| Cells.LoneFormulaSignIsText | src/cell.cpp:11-14 | "=" alone is text, not a formula |
| Cells.FormulaClassification | src/cell.cpp:11-12 | "=" followed by more is a formula exactly when the rest parses, and its text is "=" followed by the expression |
| Cells.TextValueLaw | src/cell.h:33-37 | the value of text drops exactly one leading apostrophe and is otherwise the text |
| Cells.EscapeLaw | src/cell.h:33-41 | "'" + s is edited as "'" + s and shown as s |
| Cells.FormulaValueIsNotText | src/cell.h:51-56 | a formula shows a number or an error, never text, and it shows a number exactly when evaluation gives one |
| Cells.EscapedFormulaExample | src/common.h:45-47 | "'=escaped" is text, shown as "=escaped" |
| Grids.InRange | src/sheet.h:87-90 | `IsExist`: the row is stored and long enough for the column. Negative coordinates are never in range, as the `size_t` casts make them too large |
| Grids.RowEmpty | src/sheet.cpp:87 | the `row.empty()` test `Shrink` drops trailing rows by |
| Grids.Consistent | src/sheet.cpp:72-88 | the storage invariant `Fit`, `SetCell`, `ClearCell` and `Shrink` keep: every cell holds well-formed content and the last stored row is not empty. The "keeps the storage consistent" lemmas state it is preserved |
| Grids.MaxLength | src/sheet.cpp:82-86 | the value `columns_count_` holds: the length of the longest row, 0 for no row. `MaxLengthBounds` and `MaxLengthUnique` characterise it |
| Grids.SlotEmpty | src/sheet.h:74-76 | a slot is empty when it holds no cell or a cell with text "". For well-formed content that means empty content |
| Grids.MaxLengthBounds | src/sheet.cpp:82-86 | the width bounds every row and is the length of one of them, or 0 |
| Grids.MaxLengthUnique | src/sheet.cpp:82-86 | a bound on every row that one row reaches is the width |
| Grids.MaxLengthSnoc | src/sheet.cpp:85 | the running `max(row.size(), columns_count_)` over the rows is the width of the rows seen so far |
| Grids.Trimmed | src/sheet.h:105-111 | `DropTail` keeps a prefix, everything it drops is empty, and what it keeps does not end in an empty element |
| Grids.TrimmedUnique | src/sheet.h:105-111 | those three properties determine the result: `DropTail` drops exactly the longest empty suffix |
| Grids.TrimmedIdempotent | src/sheet.h:105-111 | a second `DropTail` is a no-op |
| Grids.Resized | src/sheet.cpp:73-76 | `resize(max(size, n))` keeps every element, pads with the blank up to n and never shortens |
| Grids.Grown | src/sheet.cpp:72-76 | after `Fit`, row `pos.row` is stored and long enough for `pos.col`. No row gets shorter, other rows are untouched and the new slots are blank |
| Grids.Fitted | src/sheet.cpp:72-79 | the content after `Fit`: `Grown` with no cell in the new slots. `FittedMaxLength` and `FittedConsistent` state its properties |
| Grids.FittedMaxLength | src/sheet.cpp:78 | after `Fit` the width is the larger of the old width and the fitted row's length |
| Grids.TrimmedRows | src/sheet.cpp:83-86 | every row of the storage with its trailing empty slots dropped |
| Grids.Shrunk | src/sheet.cpp:81-88 | the content after `Shrink`: trimmed rows, then trailing empty rows dropped. The `Shrunk` lemmas below state its properties |
| Grids.TrimmedRowsMaxLength | src/sheet.cpp:82-87 | dropping trailing empty rows does not change the width |
| Grids.ShrunkShape | src/sheet.cpp:81-88 | after `Shrink` no row ends in an empty slot, the last row is not empty, and there are no more rows than before |
| Grids.ShrunkKeepsCells | src/sheet.cpp:81-88 | every slot left by `Shrink` is unchanged, and every slot with non-empty text keeps its place |
| Grids.ShrunkConsistent | src/sheet.cpp:81-88 | `Shrink` keeps the storage consistent |
| Grids.ShrunkMaxLength | src/sheet.cpp:82-87 | the width after `Shrink` is the width of the trimmed rows, as the loop computes it |
| Grids.ShrunkKeepsLookup | src/sheet.cpp:81-88 | `Shrink` is not observable through `GetCell` |
| Grids.TrimmedRowsFixed | src/sheet.cpp:83-86 | rows that do not end in an empty slot are not changed by trimming |
| Grids.ShrunkIdempotent | src/sheet.cpp:81-88 | a second `Shrink` changes nothing |
| Grids.Lookup | src/sheet.cpp:25 | `GetCell` finds a cell only in range and with non-empty text, and otherwise finds nothing |
| Grids.GetCellAsWritten | src/sheet.cpp:24-25 | the source's `GetCell` agrees with `Lookup` but is defined only on stored slots, because it reads the slot before the range check |
| Grids.Place | src/sheet.cpp:15-18 | putting content in a slot keeps the shape of the storage |
| Grids.PlaceTwice | src/sheet.cpp:15-18 | a second `Set` on the same slot overrides the first |
| Grids.SetStoredState | src/sheet.cpp:15-18 | the content and outcome of setting a stored slot: `Assigned` applied to the slot's content, or to empty content when there is no cell |
| Grids.SetCellState | src/sheet.cpp:10-19 | the content and outcome of `SetCell`: refused for an invalid position, otherwise `Fit` then the stored set. `SetCellThenLookup` and `SetCellKeepsConsistent` state its properties |
| Grids.ClearCellState | src/sheet.cpp:28-36 | the content and outcome of `ClearCell`: refused for an invalid position, empties a stored cell and shrinks when that cell ends its row. `ClearCellThenLookup` and `ClearCellKeepsConsistent` state its properties |
| Grids.FittedConsistent | src/sheet.cpp:72-79 | `Fit` keeps the storage consistent |
| Grids.PlaceKeepsShape | src/sheet.cpp:15-18 | putting well-formed content in a stored slot keeps the storage consistent and its width |
| Grids.SetCellKeepsConsistent | src/sheet.cpp:10-19 | `SetCell` keeps the storage consistent |
| Grids.ClearCellKeepsConsistent | src/sheet.cpp:28-36 | `ClearCell` keeps the storage consistent |
| Grids.SetCellThenLookup | src/sheet.cpp:10-26 | an invalid position is refused and changes nothing. A successful `SetCell` makes `GetCell` find the new content unless it is empty, and leaves every other position as it was. A failed one changes no position |
| Grids.PlainTextRoundTrip | src/sheet.cpp:15-18 | after `SetCell(pos, t)` with plain text t, `GetCell(pos).GetText()` is t |
| Grids.ClearCellThenLookup | src/sheet.cpp:28-36 | an invalid position is refused. After `ClearCell` `GetCell(pos)` finds nothing and other positions are unchanged. An out-of-range or cell-less position is a no-op |
| Grids.ClearedLookup | src/sheet.cpp:31-32 | emptying one stored cell hides it from `GetCell` and changes what `GetCell` finds nowhere else |
| Grids.SlotText | src/sheet.h:64-67 | what the `PrintTexts` lambda writes for a slot: nothing for no cell, otherwise the cell's text |
| Grids.Tabs | src/sheet.h:130-131 | n tabs |
| Grids.Fields | src/sheet.h:113-135 | a printed row has exactly `columns_count_` fields |
| Grids.Printed | src/sheet.h:117-127 | one printed item per stored slot |
| Grids.Join | src/sheet.h:119-126 | items separated by single tabs, as the first item then tab-and-item for the rest are written. `JoinPrefix` and `JoinPadded` state its properties |
| Grids.JoinPrefix | src/sheet.h:119-126 | printing one more cell appends a tab and the cell |
| Grids.LayoutPrefix | src/sheet.h:115-134 | printing one more row appends its line |
| Grids.TabsSnoc | src/sheet.h:130-131 | one more tab in the padding loop |
| Grids.FieldsPadded | src/sheet.h:117-131 | a row's fields, joined, are its stored items separated by tabs, then a tab for each further column |
| Grids.JoinPadded | src/sheet.h:129-131 | padding k blank fields adds k tabs |
| Grids.Line | src/sheet.h:115-133 | one printed row, corrected: its `columns_count_` fields separated by tabs, then a newline. `FieldsPadded`, `LineFieldCount` and `LineAsWrittenAgrees` state its properties |
| Grids.Layout | src/sheet.h:113-135 | what `PrintCells` writes: the lines of the stored rows in order. `LayoutPrefix` and `LayoutLineCount` state its properties |
| Grids.LineFieldCount | src/sheet.h:113-135 | every printed line holds `columns_count_ - 1` tabs when no cell text holds one |
| Grids.LayoutLineCount | src/sheet.h:113-135 | printing writes one newline-terminated line per stored row when no stored slot prints a newline, at any width including the width 0 of an empty sheet |
| Grids.LineAsWritten | src/sheet.h:115-133 | one row printed as the source's loop writes it: the stored cells separated by tabs, then a tab for each column from the row's length on. `LineAsWrittenAgrees` and `LineAsWrittenEmptyRow` compare it with `Line` |
| Grids.LineAsWrittenAgrees | src/sheet.h:117-133 | the source's printing of a non-empty row agrees with `Line` |
| Grids.LineAsWrittenEmptyRow | src/sheet.h:129-133 | the source prints an empty stored row as `columns_count_` tabs, one more than the separators of its blank fields |
| Sheets.Sheet.constructor | src/sheet.h:71-72 | a new sheet stores nothing and has printable size (0, 0) |
| Sheets.Sheet.IsCellEmpty | src/sheet.h:74-76 | no cell, or a cell with text "". For a cell with well-formed content that means empty content |
| Sheets.Sheet.IsRowEmpty | src/sheet.cpp:87 | the `row.empty()` lambda of `Shrink` on the stored rows. `DroppedRowsHold` ties it to `RowEmpty` on the content |
| Sheets.Sheet.ThrowInvalidPosition | src/sheet.h:78-85 | it throws exactly for an invalid position, and then an invalid-position exception |
| Sheets.Sheet.IsExist | src/sheet.h:87-90 | a slot exists exactly when its row is stored and long enough, so negative coordinates never exist |
| Sheets.Sheet.GetPrintableSize | src/sheet.h:49-54 | the number of stored rows and the width of the widest row |
| Sheets.Sheet.GetCell | src/sheet.cpp:21-26 | an invalid position throws. Otherwise the result is the stored cell when `Lookup` finds content there, and null exactly when it finds none |
| Sheets.Sheet.Fit | src/sheet.cpp:72-79 | the content grows as `Fitted` says and the width stays the widest row. The row vectors are `Grown` with null: every existing cell object stays in its slot and every new slot holds no cell |
| Sheets.Sheet.DropTail | src/sheet.h:105-111 | the kept prefix is followed only by empty elements and does not end in one |
| Sheets.Sheet.TrimmedRowHolds | src/sheet.cpp:84 | dropping a stored row's trailing empty cells drops exactly the trailing empty slots of its content |
| Sheets.Sheet.DroppedRowsHold | src/sheet.cpp:87 | dropping the trailing empty rows drops exactly the trailing empty rows of the content |
| Sheets.Sheet.TrimEachRow | src/sheet.cpp:82-86 | the loop leaves every row trimmed and computes the width of the trimmed rows. Each trimmed row is a prefix of the row it came from |
| Sheets.Sheet.ShrinkRows | src/sheet.cpp:81-88 | the rows `Shrink` keeps mirror `Shrunk` of the content, and the width is its widest row. Every kept row is a prefix of the old row at the same index |
| Sheets.Sheet.Shrink | src/sheet.cpp:81-88 | the content becomes `Shrunk` of the old content, and the sheet stays valid. No cell object moves: every row left is a prefix of the old row |
| Sheets.Sheet.SetStored | src/sheet.cpp:15-18 | the slot gets what `Set` installs. When the slot holds a cell, the rows are unchanged and that cell is the one set. Otherwise only that slot changes, to a fresh cell |
| Sheets.Sheet.SetCell | src/sheet.cpp:10-19 | the content and outcome are those of `SetCellState`. An invalid position leaves the rows unchanged. Otherwise the rows are the `Grown` rows, with a fresh cell put at `pos` only when that slot held none |
| Sheets.Sheet.ClearCell | src/sheet.cpp:28-36 | the content and outcome are those of `ClearCellState`, including the shrink when the cleared cell ends its row. No cell object moves or is replaced: every row left is a prefix of the old row |
| Sheets.Sheet.PrintStored | src/sheet.h:117-127 | the stored cells of a row printed and separated by tabs |
| Sheets.Sheet.PrintRow | src/sheet.h:116-133 | a row printed as its `columns_count_` fields separated by tabs |
| Sheets.Sheet.PrintCells | src/sheet.h:113-135 | the output is the layout of the content: one line of `columns_count_` fields per stored row |
| Sheets.Sheet.PrintTexts | src/sheet.h:63-68 | each stored cell prints as its text, and a slot with no cell prints nothing. When no stored cell's text holds a newline, the output holds one newline per stored row |
| Scenarios.SetStep | src/sheet.cpp:10-19 | a `SetCell` that classifies places the content in the fitted storage |
| Scenarios.SetThenClearScenario | src/main.cpp:71-80 | "C2" set then cleared leaves no storage and no cell at C2. Clearing A1 and J10 afterwards is a no-op |
| Scenarios.PrintScenarioFirstColumn | src/main.cpp:84-85 | "=1/0" in A1 and "meow" in A2 give one cell in each of two rows |
| Scenarios.PrintScenarioStorage | src/main.cpp:82-86 | "=1/0" in A1, "meow" in A2 and "=1+2" in B2 give two rows holding those contents |
| Scenarios.PrintScenarioTexts | src/main.cpp:88-92 | that sheet is 2 by 2 and its texts print as "=1/0\t\nmeow\t=1+2\n" |
| Scenarios.PrintScenarioClear | src/main.cpp:98-99 | clearing B2 leaves a 2 by 1 sheet |
| Scenarios.EmptyRowStorage | src/sheet.cpp:72-79 | "x" in A1 and "y" in A3 leave row 2 stored and empty |
| Scenarios.EmptyRowTexts | src/sheet.h:113-135 | that sheet prints as "x\n\ny\n", while the source writes "\t\n" for row 2 |
| Scenarios.BuildFirstColumn | src/main.cpp:83-85 | the first two `SetCell` calls of the print test on a new `Sheet` leave that content |
| Scenarios.BuildPrintSheet | src/main.cpp:83-86 | the three `SetCell` calls of the print test on a new `Sheet` leave the content of `PrintScenarioStorage` |
| Scenarios.PrintOnSheet | src/main.cpp:82-99 | the print test on the `Sheet` class: size (2, 2), those texts, then size (2, 1) |
| Scenarios.SetThenClearOnSheet | src/main.cpp:71-80 | the clear test on the `Sheet` class: `GetCell("C2")` is null and the size is (0, 0) |

## Left out

- The formula engine (src/formula.cpp and the `FormulaAST` it wraps) is not part of this model. Parsing, evaluation and expression rendering are parameters, and the printing of formula errors is not modelled.
- `PrintValues` and `CellValuePrinter` are not modelled, because they print floating-point numbers. Numbers appear only as `real` values that nothing computes.
- sheet.cpp defines `GetPrintableSize` (src/sheet.cpp:38-58) and `PrintValues`/`PrintTexts` (src/sheet.cpp:60-70) a second time, and the model follows the inline versions in sheet.h. On the storage of the repository's `TestPrint` both versions of `GetPrintableSize` give the same sizes, but they disagree elsewhere. With "x" in A1 and "y" in A3, the sheet.cpp version counts only the rows after the last empty row and reports 1 row, where sheet.h reports 3. The sheet.cpp printers also dereference slots that hold no cell, where the sheet.h ones skip them.
- sheet.h's inline `GetCell` (src/sheet.h:42-45) returns any stored slot, including an empty cell. The model follows sheet.cpp, which returns only cells with text, but checks the range first (see Findings).
- The growth helpers are named `Increase` and `IsExist` in sheet.h but called as `Fit` and `IsFit` in sheet.cpp. `Fit` models the growth and `IsExist` the range check.
- The `sheet_` argument that cell.cpp passes to the formula constructor is ignored.
- Reference tracking between formulas, cycle detection and value caching are not implemented by any file of the repository. Formulas are evaluated afresh each time, and the model follows the code.
- Output streams become returned strings. Exceptions become `Outcome`/`Result` values, without the message text `ThrowInvalidPosition` builds. The character tests are ASCII.
- `unique_ptr` ownership is not modelled: cells are objects that are never freed. A ghost map of positions stands in for the fact that each slot owns its own cell.
- `DropTail` returns the kept prefix instead of resizing the vector in place, and `Shrink` assigns the result back. The helpers `TrimEachRow`, `ShrinkRows`, `SetStored`, `PrintStored` and `PrintRow` are pieces of the source's bodies split out, not functions of the source.
- src/main.cpp is modelled only through the scenarios of its `TestClearCell` and `TestPrint` tests.
- A1Notation.FromString: the row number is read as an unbounded natural. `std::stoi` throws for a row part that does not fit an `int`, and that case is not modelled.
- Sheets.Sheet.GetCell: it checks the range before reading the slot, where the source reads first (see Findings).
- Sheets.Sheet.PrintCells: an empty stored row prints as one blank field padded to the width. The source writes one more tab (see Findings).
- Sheets.Sheet.PrintRow: the padding starts at field 1 for an empty row, where the source starts at 0 (see Findings).
- Sheets.Sheet.PrintTexts: it inherits the corrected empty row of `PrintCells` (see Findings).

## Findings

| source | as written | input that shows it | evidently intended | confidence | as-written member | corrected member |
|---|---|---|---|---|---|---|
| src/sheet.cpp:24-25 | `GetCell` reads `rows_[pos.row][pos.col]` before checking that the slot is stored | set "C2", clear "C2" (the storage shrinks to nothing), then `GetCell("C2")`, as in src/main.cpp:71-76 | check the range first and answer null outside the storage | not executed; high | Grids.GetCellAsWritten, with Scenarios.SetThenClearScenario showing the slot is not stored | Grids.Lookup, with Grids.ClearCellThenLookup and Sheets.Sheet.GetCell |
| src/sheet.h:129-131 | an empty stored row is padded from column 0, so it prints `columns_count_` tabs: one field more than every other row | "x" in A1 and "y" in A3: row 2 prints as "\t" in a sheet one column wide | every line has `columns_count_` tab-separated fields | not executed; medium | Grids.LineAsWritten, with Grids.LineAsWrittenEmptyRow and Scenarios.EmptyRowTexts | Grids.Line, with Grids.LineFieldCount and Sheets.Sheet.PrintCells |
