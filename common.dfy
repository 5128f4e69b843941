/**
 * Declarations shared by the whole sheet: cell positions and their order,
 * the two characters that steer how cell text is read, the value a cell
 * shows, and the failures that the sheet reports by throwing.
 */
module Common {

  /** First character of the text of a formula cell. */
  const FormulaSign: char := '='

  /** Leading character that is hidden from a text cell's value; it lets a
      text start with the formula sign without becoming a formula. */
  const EscapeSign: char := '\''

  /** An error a formula evaluates to. It is a value of the cell, not a
      failure of an operation. */
  datatype FormulaError = FormulaError(message: string)

  /** What a cell shows: text, a number or a formula error. `real` stands in
      for the source's `double`; no number is ever computed here. */
  datatype Value = TextValue(text: string) | NumberValue(number: real) | ErrorValue(error: FormulaError)

  /** The exceptions the sheet and its cells throw. */
  datatype Exception = InvalidPositionException | FormulaException

  /** A cell position, 0-based. */
  datatype Position = Position(row: int, col: int) {

    static const MaxRows: int := 16384
    static const MaxCols: int := 16384

    /** The "no position" answer of parsing. */
    static const None: Position := Position(-1, -1)

    predicate Equals(rhs: Position) {
      row == rhs.row && col == rhs.col
    }

    /** Strictly above and strictly to the left. */
    predicate Less(rhs: Position) {
      row < rhs.row && col < rhs.col
    }

    predicate IsValid() {
      row >= 0 && col >= 0 && row < MaxRows && col < MaxCols
    }
  }

  /** `==` on positions compares both coordinates and nothing else. */
  lemma EqualsIsComponentwise(p: Position, q: Position)
    ensures p.Equals(q) <==> p == q
  {
  }

  lemma NoneIsInvalid()
    ensures !Position.None.IsValid()
  {
  }

  /** `<` is a strict partial order ... */
  lemma LessIsStrictOrder(p: Position, q: Position, r: Position)
    ensures !p.Less(p)
    ensures p.Less(q) ==> !q.Less(p)
    ensures p.Less(q) && q.Less(r) ==> p.Less(r)
  {
  }

  /** ... but not a total one: a cell to the right and one below are
      incomparable although they differ. */
  lemma LessIsNotTotal()
    ensures exists p: Position, q: Position :: p != q && !p.Less(q) && !q.Less(p)
  {
    var p, q := Position(0, 1), Position(1, 0);
    assert p != q && !p.Less(q) && !q.Less(p);
  }
}
