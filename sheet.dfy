/**
 * The sheet: rows of optional cells, and the width of the widest stored row.
 * Right after a shrink every row ends at its last non-empty cell; `SetCell`
 * can still leave an empty cell last in a row (setting "" in C1 of an empty
 * sheet, or a formula that does not parse in a new cell).
 *
 * The ghost field `grid` is the content of every slot; `Valid` ties it to
 * the cells, and every method states its effect on `grid` through the
 * functions of module `Grids`. The ghost map `placement` records where each
 * stored cell sits, which makes the cells of different slots distinct.
 */
module Sheets {
  import opened Wrappers
  import opened Common
  import opened Cells
  import opened Grids

  datatype Size = Size(rows: int, cols: int)

  class Sheet {
    var rows: seq<seq<Cell?>>
    var columnsCount: nat

    ghost var grid: Grid
    ghost var placement: map<Cell, (int, int)>

    /** The cell in a slot mirrors the slot's content and is recorded at
        that position. */
    static ghost predicate Holds(cell: Cell?, slot: Slot, i: int, j: int, placement: map<Cell, (int, int)>)
      reads placement.Keys
    {
      if cell == null then slot == None
      else cell in placement && placement[cell] == (i, j) && slot == Some(cell.content)
    }

    static ghost predicate RowHolds(row: seq<Cell?>, slots: Row, i: int, placement: map<Cell, (int, int)>)
      reads placement.Keys
    {
      |row| == |slots| && forall j :: 0 <= j < |row| ==> Holds(row[j], slots[j], i, j, placement)
    }

    /** Every stored row mirrors its row of content. */
    static ghost predicate AllHold(rows: seq<seq<Cell?>>, grid: Grid, placement: map<Cell, (int, int)>)
      reads placement.Keys
    {
      |rows| == |grid| && forall i :: 0 <= i < |rows| ==> RowHolds(rows[i], grid[i], i, placement)
    }

    ghost predicate Valid()
      reads this, placement.Keys
    {
      && AllHold(rows, grid, placement)
      && Consistent(grid)
      && columnsCount == MaxLength(grid)
    }

    /** A new sheet stores nothing. */
    constructor ()
      ensures Valid() && grid == [] && placement == map[]
      ensures GetPrintableSize() == Size(0, 0)
    {
      rows := [];
      columnsCount := 0;
      grid := [];
      placement := map[];
    }

    // In the three two-state lemmas below every parameter is marked `new`,
    // and `old(allocated(..))` is required separately. This works around a
    // verifier failure with two-state lemma calls whose parameters are not
    // all `new` when contradictory assumptions are reported.

    /** Writing the sheet's own fields leaves the cells as they were. */
    static twostate lemma AllHoldFramed(new rows: seq<seq<Cell?>>, new grid: Grid, new placement: map<Cell, (int, int)>)
      requires old(allocated(rows)) && old(allocated(grid)) && old(allocated(placement))
      requires old(AllHold(rows, grid, placement))
      requires unchanged(placement.Keys)
      ensures AllHold(rows, grid, placement)
    {
    }

    /** Growing the storage adds only empty slots, so every row stays
        mirrored. */
    static twostate lemma FitHolds(new rows: seq<seq<Cell?>>, new grid: Grid, new placement: map<Cell, (int, int)>,
                                   new rows': seq<seq<Cell?>>, new grid': Grid, new row: nat, new col: nat)
      requires old(allocated(rows)) && old(allocated(grid)) && old(allocated(placement))
      requires old(AllHold(rows, grid, placement))
      requires unchanged(placement.Keys)
      requires rows' == Grown(rows, row, col, null) && grid' == Fitted(grid, row, col)
      ensures AllHold(rows', grid', placement)
    {
      forall i | 0 <= i < |rows'|
        ensures RowHolds(rows'[i], grid'[i], i, placement)
      {
        if i < |rows| {
          assert old(RowHolds(rows[i], grid[i], i, placement));
          forall j | 0 <= j < |rows'[i]|
            ensures Holds(rows'[i][j], grid'[i][j], i, j, placement)
          {
            if j < |rows[i]| {
              assert old(Holds(rows[i][j], grid[i][j], i, j, placement));
            }
          }
        }
      }
    }

    /** After the cell at one slot is created (when the slot held none) or
        changed, every row is mirrored with that slot holding the cell's
        new content; the placement keeps the other cells distinct from it. */
    static twostate lemma SetOneCell(new rows: seq<seq<Cell?>>, new grid: Grid, new placement: map<Cell, (int, int)>,
                                     new rows': seq<seq<Cell?>>, new grid': Grid, new placement': map<Cell, (int, int)>,
                                     new cell: Cell, new row: nat, new col: nat)
      requires old(allocated(rows)) && old(allocated(grid)) && old(allocated(placement))
      requires old(AllHold(rows, grid, placement))
      requires InRange(grid, row, col)
      requires rows[row][col] == null ==>
        cell !in placement && rows' == rows[row := rows[row][col := cell]] && placement' == placement[cell := (row, col)]
      requires rows[row][col] != null ==> rows[row][col] == cell && rows' == rows && placement' == placement
      requires unchanged(placement.Keys - {cell})
      requires grid' == Place(grid, row, col, cell.content)
      ensures AllHold(rows', grid', placement')
    {
      assert |rows'| == |rows|;
      forall i | 0 <= i < |rows'|
        ensures RowHolds(rows'[i], grid'[i], i, placement')
      {
        assert old(RowHolds(rows[i], grid[i], i, placement));
        forall j | 0 <= j < |rows'[i]|
          ensures Holds(rows'[i][j], grid'[i][j], i, j, placement')
        {
          if (i, j) != (row, col) {
            assert old(Holds(rows[i][j], grid[i][j], i, j, placement));
            assert rows'[i][j] == rows[i][j];
          }
        }
      }
    }

    /** `IsCellEmpty`: no cell, or a cell whose text is "". */
    static predicate IsCellEmpty(cell: Cell?): (empty: bool)
      reads cell
      ensures cell != null && WellFormed(cell.content) ==> (empty <==> cell.content.Empty?)
    {
      cell == null || GetText(cell.content) == ""
    }

    /** The test `Shrink` drops trailing rows by. */
    static predicate IsRowEmpty(row: seq<Cell?>) {
      |row| == 0
    }

    /** `ThrowInvalidPosition`: throws exactly for an invalid position. */
    static function ThrowInvalidPosition(pos: Position): (r: Outcome<Exception>)
      ensures r == Pass <==> pos.IsValid()
      ensures r != Pass ==> r == Fail(InvalidPositionException)
    {
      if !pos.IsValid() then Fail(InvalidPositionException) else Pass
    }

    /** `IsExist`: the slot at `pos` is stored. The source compares through
        `size_t`, so a negative coordinate is never stored. */
    predicate IsExist(pos: Position)
      reads this, placement.Keys
      requires Valid()
      ensures IsExist(pos) <==> InRange(grid, pos.row, pos.col)
    {
      0 <= pos.row < |rows| && 0 <= pos.col < |rows[pos.row]|
    }

    function GetPrintableSize(): (size: Size)
      reads this, placement.Keys
      requires Valid()
      ensures size == Size(|grid|, MaxLength(grid))
    {
      Size(|rows|, columnsCount)
    }

    /** `GetCell`: the cell at `pos` when it is stored and its text is not
        empty, nothing otherwise; throws for an invalid position. */
    method GetCell(pos: Position) returns (r: Result<Cell?, Exception>)
      requires Valid()
      ensures pos.IsValid() <==> r.Success?
      ensures r.Failure? ==> r.error == InvalidPositionException
      ensures r.Success? ==> (r.value == null <==> Lookup(grid, pos) == None)
      ensures r.Success? && r.value != null ==>
        r.value == rows[pos.row][pos.col] && Lookup(grid, pos) == Some(r.value.content)
    {
      var check := ThrowInvalidPosition(pos);
      if check.Fail? {
        return Failure(check.error);
      }
      if IsExist(pos) && !IsCellEmpty(rows[pos.row][pos.col]) {
        return Success(rows[pos.row][pos.col]);
      }
      return Success(null);
    }

    /** `Fit`: grows the storage so that `pos` is stored. */
    method Fit(pos: Position)
      requires Valid() && pos.IsValid()
      modifies this
      ensures Valid() && placement == old(placement)
      ensures grid == Fitted(old(grid), pos.row, pos.col)
      ensures rows == Grown(old(rows), pos.row, pos.col, null)
    {
      ghost var stored, g := rows, grid;
      var fitted := Resized(rows, pos.row + 1, []);
      var row := Resized(fitted[pos.row], pos.col + 1, null);
      fitted := fitted[pos.row := row];
      FittedMaxLength(g, pos.row, pos.col);
      FittedConsistent(g, pos.row, pos.col);
      label Start:
      columnsCount := if |row| < columnsCount then columnsCount else |row|;
      rows := fitted;
      grid := Fitted(g, pos.row, pos.col);
      FitHolds@Start(stored, g, placement, rows, grid, pos.row, pos.col);
    }

    /** `DropTail`: `v` without the longest suffix of elements satisfying
        `isEmpty`. */
    static method DropTail<T>(v: seq<T>, isEmpty: T ~> bool) returns (kept: seq<T>)
      requires forall i :: 0 <= i < |v| ==> isEmpty.requires(v[i])
      ensures |kept| <= |v| && kept == v[..|kept|]
      ensures forall i :: |kept| <= i < |v| ==> isEmpty(v[i])
      ensures kept == [] || !isEmpty(v[|kept| - 1])
    {
      var n := |v|;
      while n > 0 && isEmpty(v[n - 1])
        invariant 0 <= n <= |v|
        invariant forall i :: n <= i < |v| ==> isEmpty(v[i])
      {
        n := n - 1;
      }
      kept := v[..n];
    }

    /** Dropping the trailing empty cells of a stored row drops exactly the
        trailing empty slots of its content. */
    static lemma TrimmedRowHolds(row: seq<Cell?>, slots: Row, i: int, placement: map<Cell, (int, int)>, kept: seq<Cell?>)
      requires RowHolds(row, slots, i, placement)
      requires |kept| <= |row| && kept == row[..|kept|]
      requires forall j :: |kept| <= j < |row| ==> IsCellEmpty(row[j])
      requires kept == [] || !IsCellEmpty(row[|kept| - 1])
      ensures Trimmed(slots, SlotEmpty) == slots[..|kept|]
      ensures RowHolds(kept, slots[..|kept|], i, placement)
    {
      assert forall j :: 0 <= j < |row| ==> Holds(row[j], slots[j], i, j, placement);
      TrimmedUnique(slots, SlotEmpty, |kept|);
    }

    /** Dropping the trailing empty rows of the storage drops exactly the
        trailing empty rows of its content. */
    static lemma DroppedRowsHold(all: seq<seq<Cell?>>, slots: Grid, placement: map<Cell, (int, int)>, kept: seq<seq<Cell?>>)
      requires AllHold(all, slots, placement)
      requires |kept| <= |all| && kept == all[..|kept|]
      requires forall k :: |kept| <= k < |all| ==> IsRowEmpty(all[k])
      requires kept == [] || !IsRowEmpty(all[|kept| - 1])
      ensures AllHold(kept, Trimmed(slots, RowEmpty), placement)
    {
      assert forall k :: |kept| <= k < |all| ==> |slots[k]| == |all[k]|;
      assert kept != [] ==> |slots[|kept| - 1]| == |all[|kept| - 1]|;
      TrimmedUnique(slots, RowEmpty, |kept|);
      forall k | 0 <= k < |kept|
        ensures RowHolds(kept[k], slots[k], k, placement)
      {
        assert kept[k] == all[k];
      }
    }

    /** Appending a mirrored row keeps every row mirrored. */
    static lemma AllHoldSnoc(rows: seq<seq<Cell?>>, grid: Grid, placement: map<Cell, (int, int)>, row: seq<Cell?>, slots: Row)
      requires AllHold(rows, grid, placement)
      requires RowHolds(row, slots, |rows|, placement)
      ensures AllHold(rows + [row], grid + [slots], placement)
    {
      var rows', grid' := rows + [row], grid + [slots];
      forall i | 0 <= i < |rows'|
        ensures RowHolds(rows'[i], grid'[i], i, placement)
      {
        if i < |rows| {
          assert rows'[i] == rows[i] && grid'[i] == grid[i];
        }
      }
    }

    /** The loop of `Shrink` over the rows: drops the trailing empty cells
        of every row and computes the width of the widest trimmed row. */
    static method TrimEachRow(rows: seq<seq<Cell?>>, ghost slots: Grid, ghost placement: map<Cell, (int, int)>)
      returns (trimmed: seq<seq<Cell?>>, width: nat)
      requires AllHold(rows, slots, placement)
      ensures AllHold(trimmed, TrimmedRows(slots), placement)
      ensures width == MaxLength(TrimmedRows(slots))
      ensures |trimmed| == |rows| && RowPrefixes(trimmed, rows)
    {
      ghost var t := TrimmedRows(slots);
      trimmed := [];
      width := 0;
      for i := 0 to |rows|
        invariant AllHold(trimmed, t[..i], placement)
        invariant width == MaxLength(t[..i])
        invariant |trimmed| == i && RowPrefixes(trimmed, rows)
      {
        var kept := DropTail(rows[i], IsCellEmpty);
        assert RowHolds(rows[i], slots[i], i, placement);
        TrimmedRowHolds(rows[i], slots[i], i, placement, kept);
        AllHoldSnoc(trimmed, t[..i], placement, kept, t[i]);
        PrefixSnoc(t, i);
        MaxLengthSnoc(t[..i], t[i]);
        RowPrefixesSnoc(trimmed, rows, kept);
        trimmed := trimmed + [kept];
        width := if |kept| < width then width else |kept|;
      }
      assert t[..|rows|] == t;
    }

    /** The rows `Shrink` keeps: every row without its trailing empty
        cells, then without the trailing empty rows; and their width. */
    static method ShrinkRows(rows: seq<seq<Cell?>>, ghost slots: Grid, ghost placement: map<Cell, (int, int)>)
      returns (kept: seq<seq<Cell?>>, width: nat)
      requires AllHold(rows, slots, placement)
      ensures AllHold(kept, Shrunk(slots), placement)
      ensures width == MaxLength(Shrunk(slots))
      ensures RowPrefixes(kept, rows)
    {
      var trimmed;
      trimmed, width := TrimEachRow(rows, slots, placement);
      kept := DropTail(trimmed, IsRowEmpty);
      DroppedRowsHold(trimmed, TrimmedRows(slots), placement, kept);
      ShrunkMaxLength(slots);
    }

    /** `Shrink`: drops trailing empty cells from every row and then trailing
        empty rows, and recomputes the width. */
    method Shrink()
      requires Valid()
      modifies this
      ensures Valid() && placement == old(placement)
      ensures grid == Shrunk(old(grid))
      ensures RowPrefixes(rows, old(rows))
    {
      ghost var g := grid;
      var kept, width := ShrinkRows(rows, grid, placement);
      ShrunkConsistent(g);
      label Assign:
      rows := kept;
      grid := Shrunk(g);
      columnsCount := width;
      AllHoldFramed@Assign(kept, grid, placement);
    }

    /** The part of `SetCell` after `Fit`: creates a cell at the stored
        slot `pos` if there is none, and sets its text. */
    method SetStored(pos: Position, text: string, parse: Parser) returns (r: Outcome<Exception>)
      requires Valid() && InRange(grid, pos.row, pos.col)
      modifies this, placement.Keys
      ensures Valid() && fresh(placement.Keys - old(placement.Keys))
      ensures (grid, r) == SetStoredState(old(grid), pos.row, pos.col, text, parse)
      ensures old(rows[pos.row][pos.col]) != null ==> rows == old(rows)
      ensures old(rows[pos.row][pos.col]) == null ==>
        var cell := rows[pos.row][pos.col];
        cell != null && fresh(cell) && rows == old(rows[pos.row := rows[pos.row][pos.col := cell]])
    {
      ghost var f: Grid, stored, known := grid, rows, placement;
      label Stored:
      var cell := rows[pos.row][pos.col];
      assert RowHolds(rows[pos.row], grid[pos.row], pos.row, placement);
      if cell == null {
        cell := new Cell();
        rows := rows[pos.row := rows[pos.row][pos.col := cell]];
        placement := placement[cell := (pos.row, pos.col)];
      }
      r := cell.Set(text, parse);
      grid := Place(f, pos.row, pos.col, cell.content);
      SetOneCell@Stored(stored, f, known, rows, grid, placement, cell, pos.row, pos.col);
      PlaceKeepsShape(f, pos.row, pos.col, cell.content);
    }

    /** `SetCell`: fits the storage to `pos`, creates a cell there if there
        is none, and sets its text. */
    method SetCell(pos: Position, text: string, parse: Parser) returns (r: Outcome<Exception>)
      requires Valid()
      modifies this, placement.Keys
      ensures Valid() && fresh(placement.Keys - old(placement.Keys))
      ensures (grid, r) == SetCellState(old(grid), pos, text, parse)
      ensures !pos.IsValid() ==> rows == old(rows)
      ensures pos.IsValid() ==>
        var fitted := Grown(old(rows), pos.row, pos.col, null);
        var cell := rows[pos.row][pos.col];
        if fitted[pos.row][pos.col] != null then rows == fitted
        else cell != null && fresh(cell) && rows == fitted[pos.row := fitted[pos.row][pos.col := cell]]
    {
      r := ThrowInvalidPosition(pos);
      if r.Fail? {
        return;
      }
      Fit(pos);
      r := SetStored(pos, text, parse);
    }

    /** `ClearCell`: empties the cell at `pos` if there is one, and shrinks
        the storage when that cell ends its row. */
    method ClearCell(pos: Position) returns (r: Outcome<Exception>)
      requires Valid()
      modifies this, placement.Keys
      ensures Valid() && placement == old(placement)
      ensures (grid, r) == ClearCellState(old(grid), pos)
      ensures RowPrefixes(rows, old(rows))
    {
      r := ThrowInvalidPosition(pos);
      if r.Fail? {
        return;
      }
      if IsExist(pos) && rows[pos.row][pos.col] != null {
        ghost var g := grid;
        ghost var known := placement;
        var row := rows[pos.row];
        assert RowHolds(row, grid[pos.row], pos.row, placement);
        label BeforeClear:
        row[pos.col].Clear();
        grid := Place(g, pos.row, pos.col, Empty);
        SetOneCell@BeforeClear(rows, g, known, rows, grid, placement, row[pos.col], pos.row, pos.col);
        PlaceKeepsShape(g, pos.row, pos.col, Empty);
        if |row| == pos.col + 1 {
          Shrink();
        }
      }
    }

    /** The stored cells of one row of `PrintCells`, separated by tabs. */
    static method PrintStored(row: seq<Cell?>, ghost slots: Row, ghost i: int, ghost placement: map<Cell, (int, int)>,
                              printCell: Slot -> string) returns (line: string)
      requires RowHolds(row, slots, i, placement)
      ensures line == Join(Printed(slots, printCell))
    {
      ghost var items := Printed(slots, printCell);
      line := "";
      if |row| > 0 {
        line := printCell(if row[0] == null then None else Some(row[0].content));
        for j := 1 to |row|
          invariant line == Join(items[..j])
        {
          JoinPrefix(items, j);
          line := line + "\t" + printCell(if row[j] == null then None else Some(row[j].content));
        }
        assert items[..|row|] == items;
      }
    }

    /** One row of `PrintCells`: the stored cells separated by tabs, then a
        tab for each further column. An empty stored row still counts as one
        blank field. */
    static method PrintRow(row: seq<Cell?>, ghost slots: Row, ghost i: int, ghost placement: map<Cell, (int, int)>,
                           width: nat, printCell: Slot -> string) returns (line: string)
      requires RowHolds(row, slots, i, placement) && |row| <= width
      ensures line == Join(Fields(slots, width, printCell))
    {
      line := PrintStored(row, slots, i, placement, printCell);
      var j := if |row| > 0 then |row| else if width > 0 then 1 else 0;
      ghost var start := j;
      while j < width
        invariant start <= j <= width
        invariant line == Join(Printed(slots, printCell)) + Tabs(j - start)
      {
        TabsSnoc(j - start);
        line := line + "\t";
        j := j + 1;
      }
      FieldsPadded(slots, width, printCell);
    }

    /** `PrintCells`: one line per stored row, each with `columnsCount`
        tab-separated fields; `printCell` gives the text of a slot. */
    method PrintCells(printCell: Slot -> string) returns (output: string)
      requires Valid()
      ensures output == Layout(grid, columnsCount, printCell)
    {
      MaxLengthBounds(grid);
      output := "";
      for i := 0 to |rows|
        invariant output == Layout(grid[..i], columnsCount, printCell)
      {
        var line := PrintRow(rows[i], grid[i], i, placement, columnsCount, printCell);
        LayoutPrefix(grid, i, columnsCount, printCell);
        output := output + line + "\n";
      }
      assert grid[..|rows|] == grid;
    }

    /** `PrintTexts`: the text of every stored cell, nothing for no cell. */
    method PrintTexts() returns (output: string)
      requires Valid()
      ensures output == Layout(grid, columnsCount, SlotText)
      ensures (forall i, j :: InRange(grid, i, j) ==> Count(SlotText(grid[i][j]), '\n') == 0) ==>
        Count(output, '\n') == |rows|
    {
      output := PrintCells(SlotText);
      if forall i, j :: InRange(grid, i, j) ==> Count(SlotText(grid[i][j]), '\n') == 0 {
        LayoutLineCount(grid, columnsCount, SlotText);
      }
    }
  }
}
