/**
 * The sheet's storage seen as a value: a sequence of rows, each a sequence of
 * slots that hold a cell's content or nothing. The functions here say what
 * each operation of the sheet does to this value; the class `Sheet` is
 * proved against them.
 */
module Grids {
  import opened Wrappers
  import opened Common
  import opened Cells

  type Slot = Option<Content>
  type Row = seq<Slot>
  type Grid = seq<Row>

  /** `IsCellEmpty`: no cell, or a cell whose text is "". */
  predicate SlotEmpty(s: Slot): (empty: bool)
    ensures s.Some? && WellFormed(s.value) ==> (empty <==> s.value.Empty?)
  {
    s.None? || GetText(s.value) == ""
  }

  predicate RowEmpty(r: Row) {
    |r| == 0
  }

  /** `IsExist`: the row is stored and is long enough. */
  predicate InRange(g: Grid, row: int, col: int) {
    0 <= row < |g| && 0 <= col < |g[row]|
  }

  /** What every reachable storage state satisfies: cells hold well-formed
      content and the last stored row is not empty. */
  predicate Consistent(g: Grid) {
    && (forall i, j :: 0 <= i < |g| && 0 <= j < |g[i]| && g[i][j].Some? ==> WellFormed(g[i][j].value))
    && (g == [] || g[|g| - 1] != [])
  }

  function Max(a: int, b: int): int {
    if a < b then b else a
  }

  /** The length of the longest row. */
  function MaxLength<T>(rows: seq<seq<T>>): nat {
    if rows == [] then 0 else Max(MaxLength(rows[..|rows| - 1]), |rows[|rows| - 1]|)
  }

  /** The longest length bounds every row and is the length of one of them
      (or 0 when there is no row). */
  lemma {:induction false} MaxLengthBounds<T>(rows: seq<seq<T>>)
    ensures forall i :: 0 <= i < |rows| ==> |rows[i]| <= MaxLength(rows)
    ensures MaxLength(rows) == 0 || exists i :: 0 <= i < |rows| && |rows[i]| == MaxLength(rows)
  {
    if rows != [] {
      var init := rows[..|rows| - 1];
      MaxLengthBounds(init);
      assert forall i :: 0 <= i < |init| ==> rows[i] == init[i];
      if MaxLength(rows) != |rows[|rows| - 1]| && MaxLength(rows) != 0 {
        var i :| 0 <= i < |init| && |init[i]| == MaxLength(init);
        assert |rows[i]| == MaxLength(rows);
      }
    }
  }

  /** A bound on every row that is the length of one of them (or 0) is the
      longest length. */
  lemma MaxLengthUnique<T>(rows: seq<seq<T>>, m: nat)
    requires forall i :: 0 <= i < |rows| ==> |rows[i]| <= m
    requires m == 0 || exists i :: 0 <= i < |rows| && |rows[i]| == m
    ensures MaxLength(rows) == m
  {
    MaxLengthBounds(rows);
  }

  /** The running maximum `columns_count_ = max(row.size(), columns_count_)`
      over the rows seen so far. */
  lemma MaxLengthSnoc<T>(rows: seq<seq<T>>, r: seq<T>)
    ensures MaxLength(rows + [r]) == Max(MaxLength(rows), |r|)
  {
    assert (rows + [r])[..|rows|] == rows;
  }

  /** A prefix one longer is the prefix followed by the next element. */
  lemma PrefixSnoc<T>(s: seq<T>, i: nat)
    requires i < |s|
    ensures s[..i + 1] == s[..i] + [s[i]]
  {
  }

  /** `kept` has no more rows than `rows`, and each of its rows is a prefix
      of the row of `rows` at the same index: nothing was moved or
      replaced, only cut off at the ends. */
  predicate RowPrefixes<T(==)>(kept: seq<seq<T>>, rows: seq<seq<T>>) {
    |kept| <= |rows| &&
    forall i :: 0 <= i < |kept| ==> |kept[i]| <= |rows[i]| && kept[i] == rows[i][..|kept[i]|]
  }

  /** Appending a prefix of the next row keeps `RowPrefixes`. */
  lemma RowPrefixesSnoc<T>(kept: seq<seq<T>>, rows: seq<seq<T>>, r: seq<T>)
    requires RowPrefixes(kept, rows) && |kept| < |rows|
    requires |r| <= |rows[|kept|]| && r == rows[|kept|][..|r|]
    ensures RowPrefixes(kept + [r], rows)
  {
    assert forall i :: 0 <= i < |kept| ==> (kept + [r])[i] == kept[i];
  }

  /** `DropTail` on a value: the sequence without the longest suffix whose
      elements are all empty. */
  function Trimmed<T>(s: seq<T>, isEmpty: T -> bool): (r: seq<T>)
    ensures |r| <= |s| && r == s[..|r|]
    ensures forall i :: |r| <= i < |s| ==> isEmpty(s[i])
    ensures r == [] || !isEmpty(r[|r| - 1])
  {
    if s == [] || !isEmpty(s[|s| - 1]) then s else Trimmed(s[..|s| - 1], isEmpty)
  }

  /** The three properties of `Trimmed` determine it: a prefix followed only
      by empty elements and not ending in one is the trimmed sequence. */
  lemma {:induction false} TrimmedUnique<T>(s: seq<T>, isEmpty: T -> bool, k: nat)
    requires k <= |s|
    requires forall i :: k <= i < |s| ==> isEmpty(s[i])
    requires k == 0 || !isEmpty(s[k - 1])
    ensures Trimmed(s, isEmpty) == s[..k]
    decreases |s|
  {
    if k < |s| {
      var init := s[..|s| - 1];
      TrimmedUnique(init, isEmpty, k);
      assert init[..k] == s[..k];
    } else {
      assert s[..k] == s;
    }
  }

  /** Trimming twice is trimming once. */
  lemma TrimmedIdempotent<T>(s: seq<T>, isEmpty: T -> bool)
    ensures Trimmed(Trimmed(s, isEmpty), isEmpty) == Trimmed(s, isEmpty)
  {
    var r := Trimmed(s, isEmpty);
    TrimmedUnique(r, isEmpty, |r|);
  }

  /** `v.resize(max(v.size(), n))`: `v` padded with `blank` up to length
      `n`, never shortened. */
  function Resized<T>(v: seq<T>, n: nat, blank: T): (r: seq<T>)
    ensures |r| == Max(|v|, n)
    ensures forall i :: 0 <= i < |v| ==> r[i] == v[i]
    ensures forall i :: |v| <= i < |r| ==> r[i] == blank
  {
    if |v| < n then v + seq(n - |v|, _ => blank) else v
  }

  /** The two `resize` calls of `Fit(pos)`: enough rows for `row`, and
      row `row` long enough for `col`, padded with `blank`; nothing else
      changes and nothing gets shorter. */
  function Grown<T>(g: seq<seq<T>>, row: nat, col: nat, blank: T): (f: seq<seq<T>>)
    ensures |f| == Max(|g|, row + 1)
    ensures |f[row]| == Max(if row < |g| then |g[row]| else 0, col + 1)
    ensures forall i :: 0 <= i < |g| && i != row ==> f[i] == g[i]
    ensures forall i :: |g| <= i < |f| && i != row ==> f[i] == []
    ensures forall i, j :: 0 <= i < |g| && 0 <= j < |g[i]| ==> f[i][j] == g[i][j]
    ensures forall j :: (if row < |g| then |g[row]| else 0) <= j < |f[row]| ==> f[row][j] == blank
  {
    var rows := Resized(g, row + 1, []);
    rows[row := Resized(rows[row], col + 1, blank)]
  }

  /** `Fit(pos)` on the content: new slots hold nothing. */
  function Fitted(g: Grid, row: nat, col: nat): Grid {
    Grown(g, row, col, None)
  }

  /** After `Fit`, the longest row is the longer of the old longest row and
      the fitted row: `columns_count_ = max(row.size(), columns_count_)`. */
  lemma FittedMaxLength(g: Grid, row: nat, col: nat)
    ensures MaxLength(Fitted(g, row, col)) == Max(MaxLength(g), |Fitted(g, row, col)[row]|)
  {
    var f := Fitted(g, row, col);
    var m := Max(MaxLength(g), |f[row]|);
    MaxLengthBounds(g);
    forall i | 0 <= i < |f|
      ensures |f[i]| <= m
    {
      if i < |g| && i != row {
        assert f[i] == g[i];
      }
    }
    if m != |f[row]| && m != 0 {
      var i :| 0 <= i < |g| && |g[i]| == MaxLength(g);
      if i != row {
        assert f[i] == g[i];
      }
    }
    MaxLengthUnique(f, m);
  }

  /** Every row with its trailing empty slots dropped. */
  function TrimmedRows(g: Grid): (t: Grid)
    ensures |t| == |g|
    ensures forall i :: 0 <= i < |g| ==> t[i] == Trimmed(g[i], SlotEmpty)
  {
    seq(|g|, i requires 0 <= i < |g| => Trimmed(g[i], SlotEmpty))
  }

  /** `Shrink`: trailing empty slots dropped from every row, then trailing
      empty rows dropped. */
  function Shrunk(g: Grid): Grid {
    Trimmed(TrimmedRows(g), RowEmpty)
  }

  /** Dropping rows that are empty does not change the longest length. */
  lemma TrimmedRowsMaxLength(t: Grid)
    ensures MaxLength(Trimmed(t, RowEmpty)) == MaxLength(t)
  {
    var r := Trimmed(t, RowEmpty);
    var m := MaxLength(t);
    MaxLengthBounds(t);
    if m != 0 {
      var i :| 0 <= i < |t| && |t[i]| == m;
      assert i < |r| && r[i] == t[i];
    }
    MaxLengthUnique(r, m);
  }

  /** After `Shrink`: no row ends in an empty slot and the last row is not
      empty. */
  lemma ShrunkShape(g: Grid)
    ensures var s := Shrunk(g);
      && |s| <= |g|
      && (forall i :: 0 <= i < |s| ==> s[i] == [] || !SlotEmpty(s[i][|s[i]| - 1]))
      && (s == [] || s[|s| - 1] != [])
  {
  }

  /** After `Shrink`, every slot that is left is the slot that was there,
      and every cell with text keeps its place. */
  lemma ShrunkKeepsCells(g: Grid)
    ensures var s := Shrunk(g);
      && (forall i, j :: InRange(s, i, j) ==> InRange(g, i, j) && s[i][j] == g[i][j])
      && (forall i, j :: InRange(g, i, j) && !SlotEmpty(g[i][j]) ==> InRange(s, i, j) && s[i][j] == g[i][j])
  {
    var t := TrimmedRows(g);
    var s := Shrunk(g);
    forall i, j | InRange(s, i, j)
      ensures InRange(g, i, j) && s[i][j] == g[i][j]
    {
      assert s[i] == t[i];
    }
    forall i, j | InRange(g, i, j) && !SlotEmpty(g[i][j])
      ensures InRange(s, i, j) && s[i][j] == g[i][j]
    {
      assert j < |t[i]|;
      assert !RowEmpty(t[i]);
    }
  }

  /** `Shrink` keeps the storage consistent. */
  lemma ShrunkConsistent(g: Grid)
    requires Consistent(g)
    ensures Consistent(Shrunk(g))
  {
    ShrunkShape(g);
    ShrunkKeepsCells(g);
  }

  /** The width after `Shrink` is the longest trimmed row, as the loop over
      the rows computes it before the empty rows are dropped. */
  lemma ShrunkMaxLength(g: Grid)
    ensures MaxLength(Shrunk(g)) == MaxLength(TrimmedRows(g))
  {
    TrimmedRowsMaxLength(TrimmedRows(g));
  }

  /** Shrinking is not observable through `GetCell`. */
  lemma ShrunkKeepsLookup(g: Grid, pos: Position)
    ensures Lookup(Shrunk(g), pos) == Lookup(g, pos)
  {
    ShrunkKeepsCells(g);
  }

  /** Rows that do not end in an empty slot are their own trimmed rows. */
  lemma TrimmedRowsFixed(s: Grid)
    requires forall i :: 0 <= i < |s| ==> s[i] == [] || !SlotEmpty(s[i][|s[i]| - 1])
    ensures TrimmedRows(s) == s
  {
    forall i | 0 <= i < |s|
      ensures TrimmedRows(s)[i] == s[i]
    {
      TrimmedUnique(s[i], SlotEmpty, |s[i]|);
      assert s[i][..|s[i]|] == s[i];
    }
  }

  /** A second shrink changes nothing. */
  lemma ShrunkIdempotent(g: Grid)
    ensures Shrunk(Shrunk(g)) == Shrunk(g)
  {
    var s := Shrunk(g);
    ShrunkShape(g);
    TrimmedRowsFixed(s);
    assert s == [] || !RowEmpty(s[|s| - 1]);
  }

  /** What `GetCell` returns: the slot at a stored position whose text is
      not empty, and nothing otherwise. */
  function Lookup(g: Grid, pos: Position): (s: Slot)
    ensures s.Some? ==> InRange(g, pos.row, pos.col) && s == g[pos.row][pos.col] && GetText(s.value) != ""
    ensures s.None? ==> !InRange(g, pos.row, pos.col) || SlotEmpty(g[pos.row][pos.col])
  {
    if InRange(g, pos.row, pos.col) && !SlotEmpty(g[pos.row][pos.col]) then g[pos.row][pos.col] else None
  }

  /** `GetCell` as written in the source: the slot is read before the range
      check, so it is defined only when the slot is stored. */
  function GetCellAsWritten(g: Grid, pos: Position): (s: Slot)
    requires pos.IsValid()
    requires InRange(g, pos.row, pos.col)
    ensures s == Lookup(g, pos)
  {
    var cell := g[pos.row][pos.col];
    if InRange(g, pos.row, pos.col) && !SlotEmpty(cell) then cell else None
  }

  function Place(g: Grid, row: nat, col: nat, c: Content): (p: Grid)
    requires InRange(g, row, col)
    ensures |p| == |g| && forall i :: 0 <= i < |g| ==> |p[i]| == |g[i]|
  {
    g[row := g[row][col := Some(c)]]
  }

  /** A second content placed in the same slot replaces the first. */
  lemma PlaceTwice(g: Grid, row: nat, col: nat, c: Content)
    requires InRange(g, row, col)
    ensures forall d :: Place(Place(g, row, col, c), row, col, d) == Place(g, row, col, d)
  {
    forall d
      ensures Place(Place(g, row, col, c), row, col, d) == Place(g, row, col, d)
    {
      assert g[row][col := Some(c)][col := Some(d)] == g[row][col := Some(d)];
    }
  }

  /** Setting the text of a stored slot: a slot with no cell gets a new,
      empty one first. */
  function SetStoredState(g: Grid, row: nat, col: nat, text: string, parse: Parser): (Grid, Outcome<Exception>)
    requires InRange(g, row, col)
  {
    var current := if g[row][col].Some? then g[row][col].value else Empty;
    var (c, r) := Assigned(current, text, parse);
    (Place(g, row, col, c), r)
  }

  /** `SetCell(pos, text)`: the new storage and what is thrown. */
  function SetCellState(g: Grid, pos: Position, text: string, parse: Parser): (Grid, Outcome<Exception>) {
    if !pos.IsValid() then (g, Fail(InvalidPositionException))
    else SetStoredState(Fitted(g, pos.row, pos.col), pos.row, pos.col, text, parse)
  }

  /** `ClearCell(pos)`: the new storage and what is thrown. */
  function ClearCellState(g: Grid, pos: Position): (Grid, Outcome<Exception>) {
    if !pos.IsValid() then (g, Fail(InvalidPositionException))
    else if InRange(g, pos.row, pos.col) && g[pos.row][pos.col].Some? then
      var cleared := Place(g, pos.row, pos.col, Empty);
      (if |g[pos.row]| == pos.col + 1 then Shrunk(cleared) else cleared, Pass)
    else (g, Pass)
  }

  /** `Fit` keeps the storage consistent: the slots it adds hold nothing and
      the fitted row is not empty. */
  lemma FittedConsistent(g: Grid, row: nat, col: nat)
    requires Consistent(g)
    ensures Consistent(Fitted(g, row, col))
  {
    var f := Fitted(g, row, col);
    if |g| > 0 && row != |g| - 1 && |f| == |g| {
      assert f[|g| - 1] == g[|g| - 1];
    }
  }

  /** Putting well-formed content in a stored slot keeps the storage
      consistent and its width. */
  lemma PlaceKeepsShape(g: Grid, row: nat, col: nat, c: Content)
    requires Consistent(g) && InRange(g, row, col) && WellFormed(c)
    ensures Consistent(Place(g, row, col, c))
    ensures MaxLength(Place(g, row, col, c)) == MaxLength(g)
  {
    var p := Place(g, row, col, c);
    var m := MaxLength(g);
    MaxLengthBounds(g);
    if m != 0 {
      var i :| 0 <= i < |g| && |g[i]| == m;
      assert |p[i]| == m;
    }
    MaxLengthUnique(p, m);
  }

  /** `SetCell` keeps the storage consistent. */
  lemma SetCellKeepsConsistent(g: Grid, pos: Position, text: string, parse: Parser)
    requires Consistent(g)
    ensures Consistent(SetCellState(g, pos, text, parse).0)
  {
    if pos.IsValid() {
      FittedConsistent(g, pos.row, pos.col);
    }
  }

  /** `ClearCell` keeps the storage consistent. */
  lemma ClearCellKeepsConsistent(g: Grid, pos: Position)
    requires Consistent(g)
    ensures Consistent(ClearCellState(g, pos).0)
  {
    if pos.IsValid() && InRange(g, pos.row, pos.col) && g[pos.row][pos.col].Some? {
      var cleared := Place(g, pos.row, pos.col, Empty);
      if |g[pos.row]| == pos.col + 1 {
        ShrunkShape(cleared);
        ShrunkKeepsCells(cleared);
      }
    }
  }

  /** After a successful `SetCell`, `GetCell(pos)` finds the new content
      unless it is empty, and every other position reads as before. An
      invalid position is refused and changes nothing. */
  lemma SetCellThenLookup(g: Grid, pos: Position, text: string, parse: Parser)
    ensures !pos.IsValid() ==> SetCellState(g, pos, text, parse) == (g, Fail(InvalidPositionException))
    ensures pos.IsValid() && Classify(text, parse).Success? ==>
      var (g', r) := SetCellState(g, pos, text, parse);
      var c := Classify(text, parse).value;
      && r == Pass
      && Lookup(g', pos) == (if c.Empty? then None else Some(c))
      && forall q :: q != pos ==> Lookup(g', q) == Lookup(g, q)
    ensures pos.IsValid() && Classify(text, parse).Failure? ==>
      var (g', r) := SetCellState(g, pos, text, parse);
      && r == Fail(FormulaException)
      && forall q :: Lookup(g', q) == Lookup(g, q)
  {
    if pos.IsValid() {
      var f := Fitted(g, pos.row, pos.col);
      forall q
        ensures Lookup(f, q) == Lookup(g, q)
      {
        if InRange(f, q.row, q.col) && !InRange(g, q.row, q.col) {
          assert f[q.row][q.col] == None;
        }
      }
    }
  }

  /** For plain text t, `GetCell(pos).GetText()` gives t back after
      `SetCell(pos, t)`. */
  lemma PlainTextRoundTrip(g: Grid, pos: Position, text: string, parse: Parser)
    requires pos.IsValid()
    requires text != "" && !(text[0] == FormulaSign && |text| > 1)
    ensures var g' := SetCellState(g, pos, text, parse).0;
      Lookup(g', pos).Some? && GetText(Lookup(g', pos).value) == text
  {
    TextRoundTrip(text, parse);
    SetCellThenLookup(g, pos, text, parse);
  }

  /** After `ClearCell`, `GetCell(pos)` finds nothing and every other
      position reads as before; clearing a position with no cell, or one
      outside the storage, changes nothing. */
  lemma ClearCellThenLookup(g: Grid, pos: Position)
    ensures !pos.IsValid() ==> ClearCellState(g, pos) == (g, Fail(InvalidPositionException))
    ensures pos.IsValid() ==>
      var (g', r) := ClearCellState(g, pos);
      && r == Pass
      && Lookup(g', pos) == None
      && (forall q :: q != pos ==> Lookup(g', q) == Lookup(g, q))
    ensures pos.IsValid() && (!InRange(g, pos.row, pos.col) || g[pos.row][pos.col].None?) ==>
      ClearCellState(g, pos) == (g, Pass)
  {
    if pos.IsValid() && InRange(g, pos.row, pos.col) && g[pos.row][pos.col].Some? {
      var cleared := Place(g, pos.row, pos.col, Empty);
      ClearedLookup(g, pos);
      if |g[pos.row]| == pos.col + 1 {
        forall q
          ensures Lookup(Shrunk(cleared), q) == Lookup(cleared, q)
        {
          ShrunkKeepsLookup(cleared, q);
        }
      }
    }
  }

  /** Emptying one stored slot hides it from `GetCell` and nothing else. */
  lemma ClearedLookup(g: Grid, pos: Position)
    requires InRange(g, pos.row, pos.col)
    ensures var cleared := Place(g, pos.row, pos.col, Empty);
      && Lookup(cleared, pos) == None
      && forall q :: q != pos ==> Lookup(cleared, q) == Lookup(g, q)
  {
  }

  // Printing

  /** The text `PrintTexts` writes for a slot: nothing for no cell. */
  function SlotText(s: Slot): string {
    if s.None? then "" else GetText(s.value)
  }

  /** Items separated by tabs. */
  function Join(items: seq<string>): string {
    if |items| == 0 then ""
    else if |items| == 1 then items[0]
    else Join(items[..|items| - 1]) + "\t" + items[|items| - 1]
  }

  function Tabs(n: nat): (s: string)
    ensures |s| == n && forall i :: 0 <= i < n ==> s[i] == '\t'
  {
    seq(n, _ => '\t')
  }

  /** The `width` fields of a printed row: the stored slots, then blanks. */
  function Fields(row: Row, width: nat, printCell: Slot -> string): (fields: seq<string>)
    ensures |fields| == width
  {
    seq(width, j requires 0 <= j < width => if j < |row| then printCell(row[j]) else "")
  }

  /** The printed stored slots of a row, in order. */
  function Printed(row: Row, printCell: Slot -> string): (items: seq<string>)
    ensures |items| == |row|
  {
    seq(|row|, j requires 0 <= j < |row| => printCell(row[j]))
  }

  /** One printed row: its `width` fields separated by tabs, then a newline. */
  function Line(row: Row, width: nat, printCell: Slot -> string): string {
    Join(Fields(row, width, printCell)) + "\n"
  }

  /** What `PrintCells` writes: one line per stored row. */
  function Layout(g: Grid, width: nat, printCell: Slot -> string): string {
    if g == [] then "" else Layout(g[..|g| - 1], width, printCell) + Line(g[|g| - 1], width, printCell)
  }

  /** Joining one more item appends a tab and the item. */
  lemma JoinPrefix(items: seq<string>, j: nat)
    requires 1 <= j < |items|
    ensures Join(items[..j + 1]) == Join(items[..j]) + "\t" + items[j]
  {
    assert items[..j + 1][..j] == items[..j];
  }

  /** Laying out one more row appends its line. */
  lemma LayoutPrefix(g: Grid, i: nat, width: nat, printCell: Slot -> string)
    requires i < |g|
    ensures Layout(g[..i + 1], width, printCell) == Layout(g[..i], width, printCell) + Line(g[i], width, printCell)
  {
    assert g[..i + 1][..i] == g[..i];
  }

  lemma TabsSnoc(n: nat)
    ensures Tabs(n) + "\t" == Tabs(n + 1)
  {
  }

  /** The fields of a row joined: the stored slots, then a tab for each
      further column; a row with no stored slot is one blank field and a
      tab for each further column. */
  lemma FieldsPadded(row: Row, width: nat, printCell: Slot -> string)
    requires |row| <= width
    ensures |row| > 0 ==> Join(Fields(row, width, printCell)) == Join(Printed(row, printCell)) + Tabs(width - |row|)
    ensures |row| == 0 < width ==> Join(Fields(row, width, printCell)) == Tabs(width - 1)
    ensures width == 0 ==> Join(Fields(row, width, printCell)) == ""
  {
    var fields := Fields(row, width, printCell);
    if |row| > 0 {
      JoinPadded(Printed(row, printCell), width - |row|);
      assert fields == Printed(row, printCell) + seq(width - |row|, _ => "");
    } else if width > 0 {
      assert Join([""]) == "";
      JoinPadded([""], width - 1);
      assert fields == [""] + seq(width - 1, _ => "");
    }
  }

  /** A printed row as the source writes it: the stored slots separated by
      tabs, then one tab for each missing slot up to `width`. */
  function LineAsWritten(row: Row, width: nat, printCell: Slot -> string): string {
    Join(Printed(row, printCell)) + Tabs(if |row| <= width then width - |row| else 0) + "\n"
  }

  function Count(s: string, c: char): nat {
    if s == [] then 0 else Count(s[..|s| - 1], c) + (if s[|s| - 1] == c then 1 else 0)
  }

  lemma {:induction false} CountAppend(a: string, b: string, c: char)
    ensures Count(a + b, c) == Count(a, c) + Count(b, c)
  {
    if b != [] {
      assert (a + b)[..|a + b| - 1] == a + b[..|b| - 1];
      CountAppend(a, b[..|b| - 1], c);
    } else {
      assert a + b == a;
    }
  }

  /** A tab-joined list of items free of `c`, where `c` is not the tab,
      contains no `c`; when `c` is the tab it contains one fewer than items. */
  lemma {:induction false} CountJoin(items: seq<string>, c: char)
    requires |items| >= 1
    requires forall i :: 0 <= i < |items| ==> Count(items[i], c) == 0
    ensures Count(Join(items), c) == if c == '\t' then |items| - 1 else 0
  {
    if |items| > 1 {
      var init := items[..|items| - 1];
      CountJoin(init, c);
      CountAppend(Join(init) + "\t", items[|items| - 1], c);
      CountAppend(Join(init), "\t", c);
      assert Count("\t", c) == if c == '\t' then 1 else 0 by {
        assert "\t"[..0] == "";
      }
    }
  }

  /** Every printed row has exactly `width` fields: `width - 1` tabs when no
      printed cell holds a tab. */
  lemma LineFieldCount(row: Row, width: nat, printCell: Slot -> string)
    requires 1 <= width && |row| <= width
    requires forall j :: 0 <= j < |row| ==> Count(printCell(row[j]), '\t') == 0
    ensures Count(Line(row, width, printCell), '\t') == width - 1
  {
    var fields := Fields(row, width, printCell);
    assert Count("", '\t') == 0;
    CountJoin(fields, '\t');
    CountAppend(Join(fields), "\n", '\t');
    assert Count("\n", '\t') == 0 by {
      assert "\n"[..0] == "";
    }
  }

  /** `PrintCells` writes one newline-terminated line per stored row, when
      no stored slot prints a newline. */
  lemma {:induction false} LayoutLineCount(g: Grid, width: nat, printCell: Slot -> string)
    requires forall i, j :: InRange(g, i, j) ==> Count(printCell(g[i][j]), '\n') == 0
    ensures Count(Layout(g, width, printCell), '\n') == |g|
  {
    if g != [] {
      var init, row := g[..|g| - 1], g[|g| - 1];
      assert forall i, j :: InRange(init, i, j) ==> InRange(g, i, j) && init[i][j] == g[i][j];
      LayoutLineCount(init, width, printCell);
      var fields := Fields(row, width, printCell);
      forall j | 0 <= j < |row|
        ensures Count(printCell(row[j]), '\n') == 0
      {
        assert InRange(g, |g| - 1, j);
      }
      assert Count("", '\n') == 0;
      if width == 0 {
        assert Join(fields) == "";
      } else {
        CountJoin(fields, '\n');
      }
      CountAppend(Join(fields), "\n", '\n');
      assert Count("\n", '\n') == 1 by {
        assert "\n"[..0] == "";
      }
      CountAppend(Layout(g[..|g| - 1], width, printCell), Line(row, width, printCell), '\n');
    }
  }

  /** Padding a non-empty list of items with k blanks adds k tabs. */
  lemma {:induction false} JoinPadded(items: seq<string>, k: nat)
    requires |items| >= 1
    ensures Join(items + seq(k, _ => "")) == Join(items) + Tabs(k)
  {
    if k > 0 {
      var padded := items + seq(k, _ => "");
      assert padded[..|padded| - 1] == items + seq(k - 1, _ => "");
      JoinPadded(items, k - 1);
      assert Tabs(k) == Tabs(k - 1) + "\t";
    } else {
      assert items + seq(k, _ => "") == items;
    }
  }

  /** The source's row printing agrees with `Line` on every non-empty row. */
  lemma LineAsWrittenAgrees(row: Row, width: nat, printCell: Slot -> string)
    requires 1 <= |row| <= width
    ensures LineAsWritten(row, width, printCell) == Line(row, width, printCell)
  {
    var items := Printed(row, printCell);
    JoinPadded(items, width - |row|);
    assert Fields(row, width, printCell) == items + seq(width - |row|, _ => "");
  }

  /** On an empty stored row the source writes `width` tabs, one more than
      the `width - 1` that separate `width` blank fields. */
  lemma LineAsWrittenEmptyRow(width: nat, printCell: Slot -> string)
    requires width >= 1
    ensures LineAsWritten([], width, printCell) == Tabs(width) + "\n"
    ensures Line([], width, printCell) == Tabs(width - 1) + "\n"
  {
    var blanks := seq(width, _ => "");
    assert Fields([], width, printCell) == blanks;
    assert Join([""]) == "";
    JoinPadded([""], width - 1);
    assert [""] + seq(width - 1, _ => "") == blanks;
  }
}
