/**
 * A1 notation for cell positions: the column as bijective base-26 letters
 * ("A" .. "Z", "AA" ..) followed by the 1-based row in decimal.
 *
 * `Name` and `Parse` say what `ToString` and `FromString` compute; the
 * methods follow the source's loops and are proved against them.
 */
module A1Notation {
  import opened Common

  const Letters: nat := 26
  const MaxPositionLength: nat := 17
  const MaxPosLetterCount: nat := 3

  /** ASCII `isalpha(c) && isupper(c)`. */
  predicate IsUpper(c: char) {
    'A' <= c <= 'Z'
  }

  /** ASCII `isdigit(c)`. */
  predicate IsDigit(c: char) {
    '0' <= c <= '9'
  }

  predicate AllUpper(s: string) {
    forall i :: 0 <= i < |s| ==> IsUpper(s[i])
  }

  predicate AllDigits(s: string) {
    forall i :: 0 <= i < |s| ==> IsDigit(s[i])
  }

  function Letter(d: int): char
    requires 0 <= d < Letters
  {
    ('A' as int + d) as char
  }

  function Digit(d: int): char
    requires 0 <= d < 10
  {
    ('0' as int + d) as char
  }

  function Pow(base: nat, exp: nat): nat {
    if exp == 0 then 1 else base * Pow(base, exp - 1)
  }

  /** The letters of column number n (column index + 1); "" for 0. */
  function ColumnName(n: nat): string
    decreases n
  {
    if n == 0 then "" else ColumnName((n - 1) / Letters) + [Letter((n - 1) % Letters)]
  }

  /** The column number that a run of letters denotes, 'A' counting 1. */
  function ColumnNumber(s: string): int {
    if s == [] then 0
    else ColumnNumber(s[..|s| - 1]) * Letters + (s[|s| - 1] as int - 'A' as int + 1)
  }

  /** `std::to_string` of a natural number. */
  function Decimal(n: nat): string {
    if n < 10 then [Digit(n)] else Decimal(n / 10) + [Digit(n % 10)]
  }

  /** `std::stoi` of a run of digits, without the 32-bit overflow. */
  function DecimalValue(s: string): int {
    if s == [] then 0
    else DecimalValue(s[..|s| - 1]) * 10 + (s[|s| - 1] as int - '0' as int)
  }

  /** Where `find_if` stops: the length of the longest upper-case prefix. */
  function UpperPrefixLength(s: string): (k: nat)
    ensures k <= |s|
    ensures AllUpper(s[..k])
    ensures k < |s| ==> !IsUpper(s[k])
  {
    if s == [] || !IsUpper(s[0]) then 0
    else
      var k := 1 + UpperPrefixLength(s[1..]);
      assert forall i :: 1 <= i < k ==> s[i] == s[1..][i - 1];
      k
  }

  /** What `Position::ToString` returns. */
  function Name(p: Position): string {
    if !p.IsValid() then "" else ColumnName(p.col + 1) + Decimal(p.row + 1)
  }

  /** What `Position::FromString` returns. */
  function Parse(s: string): Position {
    if |s| > MaxPositionLength then Position.None
    else
      var k := UpperPrefixLength(s);
      var columnName, rowName := s[..k], s[k..];
      if columnName == [] || rowName == [] then Position.None
      else if |columnName| > MaxPosLetterCount || !AllDigits(rowName) then Position.None
      else Position(DecimalValue(rowName) - 1, ColumnNumber(columnName) - 1)
  }

  /** One step of the column loop: subtracting the remainder before dividing
      by 26 is the same as dividing `n - 1`. */
  lemma StepIdentity(n: int)
    requires n >= 1
    ensures (n - (n - 1) % Letters) / Letters == (n - 1) / Letters
  {
    var q, m := (n - 1) / Letters, (n - 1) % Letters;
    assert n - 1 == q * Letters + m;
    assert n - m == q * Letters + 1;
  }

  /** The letters of n end with the letter of its remainder; the rest are
      the letters of the quotient the source's loop computes, which is
      smaller than n. */
  lemma ColumnNameStep(n: nat, suffix: string)
    requires n >= 1
    ensures var next := (n - (n - 1) % Letters) / Letters;
      0 <= next < n && ColumnName(next) + ([Letter((n - 1) % Letters)] + suffix) == ColumnName(n) + suffix
  {
    StepIdentity(n);
  }

  method ToString(p: Position) returns (s: string)
    ensures s == Name(p)
  {
    if !p.IsValid() {
      return "";
    }
    var columnIndex: nat := p.col + 1;
    var columnName: string := "";
    while columnIndex > 0
      invariant ColumnName(columnIndex) + columnName == ColumnName(p.col + 1)
      decreases columnIndex
    {
      var modulo := (columnIndex - 1) % Letters;
      ColumnNameStep(columnIndex, columnName);
      columnName := [Letter(modulo)] + columnName;
      columnIndex := (columnIndex - modulo) / Letters;
    }
    assert columnName == ColumnName(p.col + 1);
    s := columnName + Decimal(p.row + 1);
  }

  /** The `convert_column` loop: the sum of digit * 26^(place) over the
      letters, minus one. */
  method ConvertColumn(columnName: string) returns (index: int)
    ensures index == ColumnNumber(columnName) - 1
  {
    var columnIndex := 0;
    for i := 0 to |columnName|
      invariant columnIndex == ColumnNumber(columnName[..i]) * Pow(Letters, |columnName| - i)
    {
      var digit := columnName[i] as int - 'A' as int + 1;
      var place := Pow(Letters, |columnName| - i - 1);
      assert columnName[..i + 1][..i] == columnName[..i];
      assert ColumnNumber(columnName[..i + 1]) == ColumnNumber(columnName[..i]) * Letters + digit;
      assert Pow(Letters, |columnName| - i) == Letters * place;
      columnIndex := columnIndex + digit * place;
    }
    assert columnName[..|columnName|] == columnName;
    index := columnIndex - 1;
  }

  method FromString(str: string) returns (p: Position)
    ensures p == Parse(str)
  {
    if |str| > MaxPositionLength {
      return Position.None;
    }
    var k := UpperPrefixLength(str);
    var columnName, rowName := str[..k], str[k..];
    if columnName == [] || rowName == [] {
      return Position.None;
    }
    if |columnName| > MaxPosLetterCount || !AllDigits(rowName) {
      return Position.None;
    }
    var col := ConvertColumn(columnName);
    p := Position(DecimalValue(rowName) - 1, col);
  }

  // Properties of the notation

  /** Column 0 is "A", column 25 is "Z", column 26 is "AA", and the first
      cell is "A1". */
  lemma NameExamples()
    ensures ColumnName(1) == "A" && ColumnName(26) == "Z" && ColumnName(27) == "AA"
    ensures Name(Position(0, 0)) == "A1"
  {
    assert ColumnName(1) == ColumnName(0) + ['A'];
    assert ColumnName(26) == ColumnName(0) + ['Z'];
    assert ColumnName(27) == ColumnName(1) + ['A'];
  }

  /** The letters of a column number are upper case, and there are at most
      `limit` of them when the number is below the bound for `limit` letters. */
  lemma {:induction false} ColumnNameShape(n: nat, limit: nat)
    requires n < LetterBound(limit)
    ensures AllUpper(ColumnName(n))
    ensures |ColumnName(n)| <= limit
    ensures (ColumnName(n) == "") <==> n == 0
  {
    if n > 0 {
      ColumnNameShape((n - 1) / Letters, limit - 1);
    }
  }

  /** The first column number that needs more than `letters` letters. */
  function LetterBound(letters: nat): (b: nat)
    ensures b >= 1
  {
    if letters == 0 then 1 else Letters * LetterBound(letters - 1) + 1
  }

  lemma {:induction false} ColumnNumberOfName(n: nat)
    ensures ColumnNumber(ColumnName(n)) == n
  {
    if n > 0 {
      var q, m := (n - 1) / Letters, (n - 1) % Letters;
      ColumnNumberOfName(q);
      var s := ColumnName(n);
      assert s[..|s| - 1] == ColumnName(q);
    }
  }

  /** The converse: every run of capital letters is the name of the column
      number it denotes, so names and numbers are in one-to-one
      correspondence. */
  lemma {:induction false} ColumnNameOfNumber(s: string)
    requires AllUpper(s)
    ensures ColumnNumber(s) >= 0 && ColumnName(ColumnNumber(s)) == s
  {
    if s != [] {
      var init := s[..|s| - 1];
      ColumnNameOfNumber(init);
      var q, d := ColumnNumber(init), s[|s| - 1] as int - 'A' as int;
      var n := q * Letters + d + 1;
      assert (n - 1) / Letters == q && (n - 1) % Letters == d;
      assert Letter(d) == s[|s| - 1];
      assert s == init + [s[|s| - 1]];
    }
  }

  lemma {:induction false} DecimalShape(n: nat)
    ensures Decimal(n) != "" && AllDigits(Decimal(n))
    ensures DecimalValue(Decimal(n)) == n
  {
    if n >= 10 {
      DecimalShape(n / 10);
      var s := Decimal(n);
      assert s[..|s| - 1] == Decimal(n / 10);
    }
  }

  /** A non-empty run of letters denotes a column number of at least one, so
      an accepted string never parses to `Position.None`. */
  lemma {:induction false} ColumnNumberPositive(s: string)
    requires AllUpper(s)
    ensures s != [] ==> ColumnNumber(s) >= 1
  {
    if s != [] {
      ColumnNumberPositive(s[..|s| - 1]);
    }
  }

  /** A position is valid exactly when it has a name. */
  lemma ValidIffNamed(p: Position)
    ensures p.IsValid() <==> Name(p) != ""
  {
    if p.IsValid() {
      DecimalShape(p.row + 1);
    }
  }

  /** `find_if` over letters followed by a non-letter stops after the
      letters. */
  lemma {:induction false} UpperPrefixOfConcat(a: string, b: string)
    requires AllUpper(a) && (b == [] || !IsUpper(b[0]))
    ensures UpperPrefixLength(a + b) == |a|
  {
    if a != [] {
      UpperPrefixOfConcat(a[1..], b);
      assert (a + b)[1..] == a[1..] + b;
    }
  }

  /** The name of a valid position is one to three upper-case letters
      followed by the decimal digits of the 1-based row. */
  lemma NameShape(p: Position)
    requires p.IsValid()
    ensures var s := Name(p); var k := UpperPrefixLength(s);
      1 <= k <= MaxPosLetterCount && s[..k] == ColumnName(p.col + 1) && s[k..] == Decimal(p.row + 1)
      && AllDigits(s[k..]) && DecimalValue(s[k..]) == p.row + 1
  {
    var letters, digits := ColumnName(p.col + 1), Decimal(p.row + 1);
    ColumnNameShape(p.col + 1, MaxPosLetterCount);
    DecimalShape(p.row + 1);
    UpperPrefixOfConcat(letters, digits);
    var s := letters + digits;
    assert s[..|letters|] == letters && s[|letters|..] == digits;
  }

  /** Reading back the name of a valid position gives the position. */
  lemma RoundTrip(p: Position)
    requires p.IsValid()
    ensures Parse(Name(p)) == p
  {
    var s := Name(p);
    NameShape(p);
    var k := UpperPrefixLength(s);
    ColumnNameShape(p.col + 1, MaxPosLetterCount);
    DecimalShape(p.row + 1);
    assert |s| <= MaxPositionLength by {
      assert Pow(10, 5) == 100000;
      DecimalLength(p.row + 1, 5);
    }
    ColumnNumberOfName(p.col + 1);
  }

  /** A number below 10^limit has at most `limit` digits. */
  lemma {:induction false} DecimalLength(n: nat, limit: nat)
    requires 1 <= limit && n < Pow(10, limit)
    ensures |Decimal(n)| <= limit
  {
    if n >= 10 {
      DecimalLength(n / 10, limit - 1);
    }
  }

  /** `FromString` answers `Position.None` exactly when the string is too
      long, has no leading letters, has nothing after them, has more than
      three letters or has a non-digit after them. */
  lemma ParseRejects(s: string)
    ensures var k := UpperPrefixLength(s);
      Parse(s) == Position.None <==>
        |s| > MaxPositionLength || k == 0 || k == |s| || k > MaxPosLetterCount || !AllDigits(s[k..])
  {
    var k := UpperPrefixLength(s);
    ColumnNumberPositive(s[..k]);
  }

  /** Strings `FromString` rejects: lower case, no leading letters, four
      letters, a letter after the digits, no digits. */
  lemma ParseRejectExamples()
    ensures Parse("a1") == Position.None
    ensures Parse("1A") == Position.None
    ensures Parse("ABCD1") == Position.None
    ensures Parse("A1B") == Position.None
    ensures Parse("A") == Position.None
  {
    assert UpperPrefixLength("a1") == 0;
    assert UpperPrefixLength("1A") == 0;
    assert UpperPrefixLength("ABCD1") == 4 by {
      assert UpperPrefixLength("1") == 0;
    }
    assert UpperPrefixLength("A1B") == 1 by {
      assert UpperPrefixLength("1B") == 0;
    }
    assert !AllDigits("A1B"[1..]) by {
      assert "A1B"[1..][1] == 'B';
    }
    assert UpperPrefixLength("A") == 1 by {
      assert UpperPrefixLength("") == 0;
    }
  }

  /** Strings `FromString` accepts; "A0" gives row -1, because `FromString`
      does not check validity. */
  lemma ParseAcceptExamples()
    ensures Parse("A0") == Position(-1, 0)
    ensures Parse("C2") == Position(1, 2)
  {
    assert UpperPrefixLength("A0") == 1 by {
      assert UpperPrefixLength("0") == 0;
    }
    assert "A0"[..1] == "A" && "A0"[1..] == "0";
    assert DecimalValue("0") == 0 by {
      assert "0"[..0] == "";
    }
    assert ColumnNumber("A") == 1 by {
      assert "A"[..0] == "";
    }
    assert UpperPrefixLength("C2") == 1 by {
      assert UpperPrefixLength("2") == 0;
    }
    assert "C2"[..1] == "C" && "C2"[1..] == "2";
    assert DecimalValue("2") == 2 by {
      assert "2"[..0] == "";
    }
    assert ColumnNumber("C") == 3 by {
      assert "C"[..0] == "";
    }
  }
}
