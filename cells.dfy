/**
 * A cell and its three kinds of content: nothing, literal text, or a formula.
 *
 * The formula engine is not part of this model. A parsed formula is seen only
 * through the canonical text of its expression; the parser and the evaluator
 * are parameters (`Parser`, `Evaluator`).
 */
module Cells {
  import opened Wrappers
  import opened Common

  /** A parsed formula, known by the canonical text of its expression (what
      `GetExpression` renders). */
  datatype ParsedFormula = ParsedFormula(expression: string)

  /** What evaluating a formula gives: a number or a formula error. */
  datatype FormulaResult = Number(number: real) | Error(error: FormulaError)

  /** The formula engine's parser: `None` when the expression is malformed. */
  type Parser = string -> Option<ParsedFormula>

  /** The formula engine's evaluation of a parsed formula. */
  type Evaluator = ParsedFormula -> FormulaResult

  /** The content of a cell: `EmptyImpl`, `TextImpl` or `FormulaImpl`. */
  datatype Content = Empty | Text(text: string) | Formula(formula: ParsedFormula)

  /** Text content is never the empty string (so its first character exists). */
  predicate WellFormed(c: Content) {
    c.Text? ==> c.text != []
  }

  /** The text shown for editing: "" only for empty content, and the
      formula sign first for a formula. */
  function GetText(c: Content): (t: string)
    ensures WellFormed(c) ==> (t == "" <==> c.Empty?)
    ensures c.Formula? ==> t != "" && t[0] == FormulaSign
  {
    match c
    case Empty => ""
    case Text(text) => text
    case Formula(f) => [FormulaSign] + f.expression
  }

  /** The value shown: text exactly for content that is not a formula, and
      then the text for editing, or that text without its leading escape
      sign. */
  function GetValue(c: Content, evaluate: Evaluator): (v: Value)
    requires WellFormed(c)
    ensures v.TextValue? <==> !c.Formula?
    ensures v.TextValue? ==> GetText(c) == v.text || GetText(c) == [EscapeSign] + v.text
  {
    match c
    case Empty => TextValue("")
    case Text(text) => if text[0] == EscapeSign then TextValue(text[1..]) else TextValue(text)
    case Formula(f) =>
      match evaluate(f)
      case Number(x) => NumberValue(x)
      case Error(e) => ErrorValue(e)
  }

  /** The content that `Set(text)` installs, or the exception it throws. */
  function Classify(text: string, parse: Parser): (r: Result<Content, Exception>)
    ensures r.Success? ==> WellFormed(r.value)
    ensures r.Success? && r.value.Empty? <==> text == ""
    ensures r.Failure? ==> r.error == FormulaException
  {
    if text == [] then Success(Empty)
    else if text[0] == FormulaSign && |text| > 1 then
      match parse(text[1..])
      case Some(f) => Success(Formula(f))
      case None => Failure(FormulaException)
    else Success(Text(text))
  }

  /** What `Set(text)` leaves in a cell that held `c`, and what it throws:
      the classified content, or `c` unchanged and the exception. */
  function Assigned(c: Content, text: string, parse: Parser): (Content, Outcome<Exception>) {
    match Classify(text, parse)
    case Success(d) => (d, Pass)
    case Failure(e) => (c, Fail(e))
  }

  class Cell {
    var content: Content

    ghost predicate Valid()
      reads this
    {
      WellFormed(content)
    }

    /** A new cell is empty. */
    constructor ()
      ensures Valid() && content == Empty
    {
      content := Empty;
    }

    method Clear()
      modifies this
      ensures Valid() && content == Empty
    {
      content := Empty;
    }

    /** Replaces the content wholesale; when the formula does not parse the
        cell is left as it was. */
    method Set(text: string, parse: Parser) returns (r: Outcome<Exception>)
      requires Valid()
      modifies this
      ensures Valid()
      ensures (content, r) == Assigned(old(content), text, parse)
    {
      if text == [] {
        Clear();
        return Pass;
      }
      if text[0] == FormulaSign && |text| > 1 {
        match parse(text[1..]) {
          case Some(f) =>
            content := Formula(f);
            r := Pass;
          case None =>
            r := Fail(FormulaException);
        }
      } else {
        content := Text(text);
        r := Pass;
      }
    }
  }

  // Properties of cell content

  /** `Set` installs the classified content and throws nothing, or throws a
      formula exception and keeps the content; content it installs is
      well-formed, and only "" installs `Empty`. */
  lemma AssignedLaw(c: Content, text: string, parse: Parser)
    ensures var (d, r) := Assigned(c, text, parse);
      && (r == Pass <==> Classify(text, parse).Success?)
      && (r == Pass ==> d == Classify(text, parse).value && WellFormed(d) && (d.Empty? <==> text == ""))
      && (r != Pass ==> r == Fail(FormulaException) && d == c)
  {
  }

  /** An empty cell, whether new or cleared, has no text and shows "". */
  lemma EmptyShowsNothing(evaluate: Evaluator)
    ensures GetText(Empty) == "" && GetValue(Empty, evaluate) == TextValue("")
  {
  }

  /** Content has no text exactly when it is empty: a formula's text starts
      with the formula sign and text content is never "". */
  lemma TextIsEmptyIffEmpty(c: Content)
    requires WellFormed(c)
    ensures GetText(c) == "" <==> c.Empty?
  {
  }

  /** Setting non-formula text and reading it back gives the text itself:
      anything not of the form "=" followed by at least one character,
      including "=" alone, is stored verbatim. */
  lemma TextRoundTrip(text: string, parse: Parser)
    requires text != "" && !(text[0] == FormulaSign && |text| > 1)
    ensures Classify(text, parse) == Success(Text(text))
    ensures GetText(Classify(text, parse).value) == text
  {
  }

  /** A lone "=" is text, not a formula. */
  lemma LoneFormulaSignIsText(parse: Parser)
    ensures Classify("=", parse) == Success(Text("="))
  {
  }

  /** Text of the form "=" followed by more becomes the formula parsed from
      the rest, or fails with a formula exception when that does not parse;
      the formula's text is "=" followed by the canonical expression. */
  lemma FormulaClassification(text: string, parse: Parser)
    requires |text| > 1 && text[0] == FormulaSign
    ensures Classify(text, parse).Success? <==> parse(text[1..]).Some?
    ensures parse(text[1..]).Some? ==>
      var f := parse(text[1..]).value;
      Classify(text, parse) == Success(Formula(f)) && GetText(Formula(f)) == "=" + f.expression
  {
  }

  /** The value of a text cell is its text with one leading apostrophe
      dropped; the text keeps it. */
  lemma TextValueLaw(text: string, evaluate: Evaluator)
    requires text != ""
    ensures var v := GetValue(Text(text), evaluate);
      v.TextValue? && (if text[0] == EscapeSign then text == [EscapeSign] + v.text else text == v.text)
  {
  }

  /** Escaping: "'" + s is shown as s and edited as "'" + s. */
  lemma EscapeLaw(s: string, evaluate: Evaluator)
    ensures GetText(Text([EscapeSign] + s)) == [EscapeSign] + s
    ensures GetValue(Text([EscapeSign] + s), evaluate) == TextValue(s)
  {
  }

  /** A formula never shows text: it shows the number or the error its
      evaluation gives. */
  lemma FormulaValueIsNotText(f: ParsedFormula, evaluate: Evaluator)
    ensures var v := GetValue(Formula(f), evaluate);
      !v.TextValue? && (v.NumberValue? <==> evaluate(f).Number?)
  {
  }

  /** "'=escaped" is stored as text, edited as "'=escaped" and shown as
      "=escaped". */
  lemma EscapedFormulaExample(parse: Parser, evaluate: Evaluator)
    ensures Classify("'=escaped", parse) == Success(Text("'=escaped"))
    ensures GetValue(Text("'=escaped"), evaluate) == TextValue("=escaped")
  {
    assert "'=escaped"[1..] == "=escaped";
  }
}
