/** Decimal numerals: how integers are written, and what Python's `int(text)` reads. */
module Numbers {
  import opened Wrappers
  import Text

  function Digit(d: nat): (c: char)
    requires d < 10
    ensures '0' <= c <= '9'
  {
    '0' + d as char
  }

  function DigitValue(c: char): (d: nat)
    requires '0' <= c <= '9'
    ensures d < 10
  {
    (c - '0') as nat
  }

  /** `str(n)`. */
  function Decimal(n: nat): (s: string)
    ensures Text.AllDigits(s)
  {
    if n < 10 then [Digit(n)] else Decimal(n / 10) + [Digit(n % 10)]
  }

  predicate IsDigit(c: char) {
    '0' <= c <= '9'
  }

  /** Digits, in which single underscores may separate digits. */
  predicate Numeral(s: string) {
    && s != [] && IsDigit(s[0]) && IsDigit(s[|s| - 1])
    && (forall c | c in s :: IsDigit(c) || c == '_')
    && forall i | 0 < i < |s| :: s[i] == '_' ==> s[i - 1] != '_'
  }

  function Value(s: string): nat
    requires forall c | c in s :: IsDigit(c) || c == '_'
  {
    if s == [] then 0
    else
      var n := |s| - 1;
      assert s[n] in s && (IsDigit(s[n]) || s[n] == '_');
      if s[n] == '_' then Value(s[..n]) else 10 * Value(s[..n]) + DigitValue(s[n])
  }

  function ParseStrippedInt(s: string): Option<int> {
    if s != [] && s[0] == '-' && Numeral(s[1..]) then
      var negated: int := -(Value(s[1..]) as int);
      Some(negated)
    else if s != [] && s[0] == '+' && Numeral(s[1..]) then Some(Value(s[1..]))
    else if Numeral(s) then Some(Value(s))
    else None
  }

  /** `int(text)`, for ASCII digits. */
  function ParseInt(text: string): Option<int> {
    ParseStrippedInt(Text.Strip(text))
  }

  lemma {:induction false} ValueOfDecimal(n: nat)
    ensures Value(Decimal(n)) == n
  {
    var s := Decimal(n);
    if n >= 10 {
      ValueOfDecimal(n / 10);
      assert s[..|s| - 1] == Decimal(n / 10);
      assert DigitValue(s[|s| - 1]) == n % 10;
    } else {
      assert s[..0] == [];
      assert DigitValue(s[0]) == n;
    }
  }

  lemma NoSpaceInDigits(s: string)
    requires Text.AllDigits(s)
    ensures Text.Strip(s) == s && Numeral(s)
  {
    assert s[0] in s && s[|s| - 1] in s;
    forall i | 0 < i < |s| ensures s[i] != '_' { assert s[i] in s; }
  }

  /** Reading back a written number gives the number. */
  lemma ParseDecimal(n: nat)
    ensures ParseInt(Decimal(n)) == Some(n)
  {
    var s := Decimal(n);
    NoSpaceInDigits(s);
    ValueOfDecimal(n);
    assert s[0] in s;
  }

  lemma DigitsEnds(n: nat)
    ensures var d := Decimal(n);
            && d != "" && Numeral(d) && Value(d) == n && !Text.IsSpace(d[0]) && !Text.IsSpace(d[|d| - 1])
            && d[0] != '-' && d[0] != '+'
  {
    var d := Decimal(n);
    NoSpaceInDigits(d);
    ValueOfDecimal(n);
    assert d[0] in d && d[|d| - 1] in d;
  }

  lemma ParseStripped(a: string, s: string, b: string)
    requires (forall c | c in a :: Text.IsSpace(c)) && forall c | c in b :: Text.IsSpace(c)
    requires s != "" && !Text.IsSpace(s[0]) && !Text.IsSpace(s[|s| - 1])
    ensures ParseInt(a + s + b) == ParseInt(s)
  {
    Text.StripSpaces(a, s, b);
    Text.StripSpaces("", s, "");
    assert "" + s + "" == s;
    assert Text.Strip(a + s + b) == s && Text.Strip(s) == s;
    hide Text.Strip, ParseStrippedInt;
  }

  /** Signs and white space around a number are read as Python reads them. */
  lemma ParseSigned(a: string, n: nat, b: string)
    requires (forall c | c in a :: Text.IsSpace(c)) && forall c | c in b :: Text.IsSpace(c)
    ensures var negated: int := 0 - n; ParseInt(a + ("-" + Decimal(n)) + b) == Some(negated)
    ensures ParseInt(a + ("+" + Decimal(n)) + b) == Some(n)
    ensures ParseInt(a + Decimal(n) + b) == Some(n)
  {
    var d := Decimal(n);
    DigitsEnds(n);
    assert ("-" + d)[1..] == d && ("+" + d)[1..] == d;
    ParseStripped(a, d, b);
    ParseStripped(a, "-" + d, b);
    ParseStripped(a, "+" + d, b);
    SignedValue(d, n);
    hide Text.Strip, Decimal, Numeral, ParseInt;
  }

  lemma SignedValue(d: string, n: nat)
    requires d != "" && Numeral(d) && Value(d) == n && !Text.IsSpace(d[0]) && !Text.IsSpace(d[|d| - 1])
    requires d[0] != '-' && d[0] != '+'
    ensures var negated: int := 0 - n; ParseInt("-" + d) == Some(negated)
    ensures ParseInt("+" + d) == Some(n) && ParseInt(d) == Some(n)
  {
    AfterSign('-', d);
    AfterSign('+', d);
    hide Text.Strip, Numeral, Value;
  }

  lemma AfterSign(sign: char, d: string)
    requires d != "" && !Text.IsSpace(sign) && !Text.IsSpace(d[|d| - 1])
    ensures var s := [sign] + d; s[0] == sign && s[1..] == d && Text.Strip(s) == s
  {
    var s := [sign] + d;
    assert s[|s| - 1] == d[|d| - 1];
    hide Text.Strip;
  }
}
