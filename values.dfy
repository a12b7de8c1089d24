/**
 * The value classifier `read_value` (mdoc/parser.py:91-107) and the literal
 * patterns it tries (mdoc/parser.py:13-23, with IDENTIFIER from line 9).
 */
module Values {
  import opened Lexemes

  /**
   * A classified literal. A FLOAT is kept by its lexical parts (sign, digits
   * before and after the point) rather than as a binary floating-point number.
   */
  datatype Value =
    | Str(text: string)
    | Float(negative: bool, whole: string, fraction: string)
    | Integer(n: int)
    | Boolean(b: bool)
    | Identifier(name: string)

  /** STRING_REGEXP: `"(.*)"` spanning the whole literal; the inner text may hold quotes but no line break. */
  predicate IsStringLiteral(s: string) {
    |s| >= 2 && s[0] == '"' && s[|s| - 1] == '"' && '\n' !in s[1..|s| - 1]
  }

  predicate IsNegated(s: string) {
    |s| > 0 && s[0] == '-'
  }

  /** The literal without the optional leading `-`. */
  function Unsigned(s: string): string {
    if IsNegated(s) then s[1..] else s
  }

  /** FLOAT_REGEXP: `-?[0-9]+\.[0-9]+` spanning the whole literal. */
  predicate IsFloatLiteral(s: string) {
    var u := Unsigned(s);
    var w := Span(u, 0, Digit);
    0 < w < |u| && u[w] == '.' && IsDigits(u[w + 1..])
  }

  /** INTEGER_REGEXP: `-?[0-9]+` spanning the whole literal (leading zeros allowed). */
  predicate IsIntegerLiteral(s: string) {
    IsDigits(Unsigned(s))
  }

  /** BOOLEAN_REGEXP */
  predicate IsBooleanLiteral(s: string) {
    s == "true" || s == "false"
  }

  /** IDENTIFIER_REGEXP: `\$([-a-z0-9]+)` spanning the whole literal. */
  predicate IsIdentifierLiteral(s: string) {
    |s| >= 2 && s[0] == '$' && IsName(s[1..])
  }

  function DigitValue(c: char): int {
    c as int - '0' as int
  }

  function DigitChar(d: nat): (c: char)
    requires d < 10
    ensures IsDigit(c) && DigitValue(c) == d
  {
    (d + '0' as int) as char
  }

  /** The number a run of decimal digits denotes, as Python's `int()` reads it. */
  function DecimalValue(ds: string): int
    decreases |ds|
  {
    if |ds| == 0 then 0 else DecimalValue(ds[..|ds| - 1]) * 10 + DigitValue(ds[|ds| - 1])
  }

  /** The canonical decimal spelling of `n`: no leading zero except for 0 itself. */
  function Decimal(n: nat): (s: string)
    ensures IsDigits(s)
    ensures s[0] == '0' ==> n == 0
    decreases n
  {
    if n < 10 then [DigitChar(n)] else Decimal(n / 10) + [DigitChar(n % 10)]
  }

  /**
   * read_value: the patterns are tried in a fixed order and the first that
   * matches the whole literal decides; a literal that none matches has no value
   * (line 107 builds a SyntaxError without raising it, so the function returns
   * None). Every value read is well formed, and apart from integers (which may
   * be spelled with leading zeros or as `-0`) the literal is the canonical one.
   */
  function ReadValue(s: string): (r: Option<Value>)
    ensures r.Some? <==> Lexical(s)
    ensures r.Some? ==> WellFormed(r.value)
    ensures r.Some? && !r.value.Integer? ==> Literal(r.value) == s
  {
    if IsStringLiteral(s) then
      assert s == "\"" + s[1..|s| - 1] + "\"";
      Some(Str(s[1..|s| - 1]))
    else if IsFloatLiteral(s) then
      var u := Unsigned(s);
      var w := Span(u, 0, Digit);
      FloatExact(s);
      Some(Float(IsNegated(s), u[..w], u[w + 1..]))
    else if IsIntegerLiteral(s) then
      Some(Integer(if IsNegated(s) then -DecimalValue(Unsigned(s)) else DecimalValue(Unsigned(s))))
    else if IsBooleanLiteral(s) then Some(Boolean(s == "true"))
    else if IsIdentifierLiteral(s) then
      assert s == "$" + s[1..];
      Some(Identifier(s[1..]))
    else None
  }

  /** One of the five patterns spans the whole literal. */
  predicate Lexical(s: string) {
    IsStringLiteral(s) || IsFloatLiteral(s) || IsIntegerLiteral(s) || IsBooleanLiteral(s) || IsIdentifierLiteral(s)
  }

  /** The values a literal can denote. */
  predicate WellFormed(v: Value) {
    match v
    case Str(text) => '\n' !in text
    case Float(_, whole, fraction) => IsDigits(whole) && IsDigits(fraction)
    case Integer(_) => true
    case Boolean(_) => true
    case Identifier(name) => IsName(name)
  }

  /** The canonical literal of a value: the partner of ReadValue. */
  function Literal(v: Value): string {
    match v
    case Str(text) => "\"" + text + "\""
    case Float(negative, whole, fraction) => (if negative then "-" else "") + whole + "." + fraction
    case Integer(n) => if n < 0 then "-" + Decimal(-n) else Decimal(n)
    case Boolean(b) => if b then "true" else "false"
    case Identifier(name) => "$" + name
  }

  /** Reading a decimal spelling gives back its number. */
  lemma {:induction false} DecimalRoundTrip(n: nat)
    ensures DecimalValue(Decimal(n)) == n
    decreases n
  {
    if n >= 10 {
      var s := Decimal(n);
      assert s[..|s| - 1] == Decimal(n / 10);
      DecimalRoundTrip(n / 10);
    }
  }

  /** Leading zeros do not change the number `int()` reads: `007` is 7. */
  lemma {:induction false} LeadingZero(ds: string)
    ensures DecimalValue("0" + ds) == DecimalValue(ds)
    decreases |ds|
  {
    if |ds| > 0 {
      var s := "0" + ds;
      assert s[..|s| - 1] == "0" + ds[..|ds| - 1];
      LeadingZero(ds[..|ds| - 1]);
    }
  }

  /** Every well-formed value is read back from its canonical literal. */
  lemma {:induction false} ReadLiteral(v: Value)
    requires WellFormed(v)
    ensures ReadValue(Literal(v)) == Some(v)
  {
    match v
    case Str(text) => QuotedIsString(text);
    case Float(negative, whole, fraction) => ReadFloat(negative, whole, fraction);
    case Integer(n) => ReadInteger(n);
    case Boolean(b) =>
      assert !IsFloatLiteral(Literal(v)) by { SpanIs(Literal(v), 0, 0, Digit); }
    case Identifier(name) => ReadIdentifier(name);
  }

  lemma {:induction false} ReadFloat(negative: bool, whole: string, fraction: string)
    requires IsDigits(whole) && IsDigits(fraction)
    ensures ReadValue(Literal(Float(negative, whole, fraction))) == Some(Float(negative, whole, fraction))
  {
    var s := Literal(Float(negative, whole, fraction));
    var u := whole + "." + fraction;
    assert Unsigned(s) == u by {
      if negative { assert s == "-" + u; } else { assert s == u; }
    }
    assert u[0..|whole|] == whole;
    SpanIs(u, 0, |whole|, Digit);
    assert u[..|whole|] == whole && u[|whole| + 1..] == fraction;
  }

  lemma {:induction false} ReadInteger(n: int)
    ensures ReadValue(Literal(Integer(n))) == Some(Integer(n))
  {
    var s := Literal(Integer(n));
    var m := if n < 0 then -n else n;
    assert Unsigned(s) == Decimal(m);
    assert !IsFloatLiteral(s) by { SpanIs(Decimal(m), 0, |Decimal(m)|, Digit); }
    DecimalRoundTrip(m);
  }

  lemma {:induction false} ReadIdentifier(name: string)
    requires IsName(name)
    ensures ReadValue(Literal(Identifier(name))) == Some(Identifier(name))
  {
    var s := Literal(Identifier(name));
    assert !IsFloatLiteral(s) by { SpanIs(s, 0, 0, Digit); }
    assert !IsIntegerLiteral(s) by { assert !IsDigit(Unsigned(s)[0]); }
    assert s[1..] == name;
  }

  lemma {:induction false} FloatExact(s: string)
    requires IsFloatLiteral(s)
    ensures var u := Unsigned(s); var w := Span(u, 0, Digit);
      WellFormed(Float(IsNegated(s), u[..w], u[w + 1..])) && Literal(Float(IsNegated(s), u[..w], u[w + 1..])) == s
  {
    var u := Unsigned(s);
    var w := Span(u, 0, Digit);
    SpanRun(u, 0, Digit);
    assert u[..w] == u[0..w];
    var sign := if IsNegated(s) then "-" else "";
    assert s == sign + u by {
      if IsNegated(s) { assert s == [s[0]] + s[1..]; }
    }
    PointSplit(sign, u, w);
  }

  /** Cutting a literal around its point and putting it back together gives the literal. */
  lemma {:induction false} PointSplit(sign: string, u: string, w: nat)
    requires w < |u| && u[w] == '.'
    ensures sign + u == sign + u[..w] + "." + u[w + 1..]
  {
    var r := sign + u[..w] + "." + u[w + 1..];
    forall k | 0 <= k < |r| ensures r[k] == (sign + u)[k] {
      if k >= |sign| + w + 1 {
        assert r[k] == u[w + 1..][k - |sign| - w - 1];
      } else if k >= |sign| {
        assert (sign + u)[k] == u[k - |sign|];
      }
    }
  }

  /** A quoted literal is a string whatever it holds: `"5"` is a string, never an integer. */
  lemma {:induction false} QuotedIsString(text: string)
    requires '\n' !in text
    ensures ReadValue("\"" + text + "\"") == Some(Str(text))
  {
    var s := "\"" + text + "\"";
    assert s[1..|s| - 1] == text;
  }

  /** A run of digits, possibly with leading zeros and a sign, is an integer. */
  lemma {:induction false} DigitsAreInteger(ds: string)
    requires IsDigits(ds)
    ensures ReadValue(ds) == Some(Integer(DecimalValue(ds)))
    ensures ReadValue("-" + ds) == Some(Integer(-DecimalValue(ds)))
  {
    SpanIs(ds, 0, |ds|, Digit);
    var n := "-" + ds;
    assert Unsigned(n) == ds;
  }

  /**
   * The five patterns are pairwise exclusive: a literal opens with `"`, with a
   * sign or digit, with `t` or `f`, or with `$`, and a digit run with a `.` is
   * not all digits. So the order in which read_value tries them decides nothing.
   */
  lemma {:induction false} PatternsDisjoint(s: string)
    ensures IsStringLiteral(s) ==> !IsFloatLiteral(s) && !IsIntegerLiteral(s) && !IsBooleanLiteral(s) && !IsIdentifierLiteral(s)
    ensures IsFloatLiteral(s) ==> !IsIntegerLiteral(s) && !IsBooleanLiteral(s) && !IsIdentifierLiteral(s)
    ensures IsIntegerLiteral(s) ==> !IsBooleanLiteral(s) && !IsIdentifierLiteral(s)
    ensures IsBooleanLiteral(s) ==> !IsIdentifierLiteral(s)
  {
  }

  /** A whitespace-only literal matches no pattern. */
  lemma {:induction false} BlankIsNoValue(s: string)
    requires |s| > 0 && AllSpace(s)
    ensures ReadValue(s) == None
  {
    assert IsSpace(s[0]);
    assert Span(s, 0, Digit) == 0;
  }

  /** A canonical literal is one non-empty word on one line: it starts and ends with a non-space. */
  lemma {:induction false} LiteralShape(v: Value)
    requires WellFormed(v)
    ensures var s := Literal(v);
      |s| > 0 && !IsSpace(s[0]) && !IsSpace(s[|s| - 1]) && '\n' !in s
  {
    var s := Literal(v);
    match v
    case Str(text) =>
      assert forall k :: 1 <= k < |s| - 1 ==> s[k] == text[k - 1];
    case Float(negative, whole, fraction) => FloatShape(negative, whole, fraction);
    case Integer(n) => IntegerShape(n);
    case Boolean(b) =>
    case Identifier(name) =>
      assert forall k :: 1 <= k < |s| ==> s[k] == name[k - 1];
  }

  /** A float literal holds only its sign, digits and the point. */
  lemma {:induction false} FloatShape(negative: bool, whole: string, fraction: string)
    requires IsDigits(whole) && IsDigits(fraction)
    ensures var s := Literal(Float(negative, whole, fraction));
      |s| > 0 && !IsSpace(s[0]) && !IsSpace(s[|s| - 1]) && '\n' !in s
  {
    var s := Literal(Float(negative, whole, fraction));
    var u := whole + "." + fraction;
    forall k | 0 <= k < |u| ensures u[k] == '.' || IsDigit(u[k]) {
      if k < |whole| { assert u[k] == whole[k]; }
      else if k > |whole| { assert u[k] == fraction[k - |whole| - 1]; }
    }
    assert s[|s| - 1] == fraction[|fraction| - 1];
    if negative {
      assert s == "-" + u;
      assert forall k :: 1 <= k < |s| ==> s[k] == u[k - 1];
    } else {
      assert s == u;
    }
  }

  /** An integer literal holds only its sign and digits. */
  lemma {:induction false} IntegerShape(n: int)
    ensures var s := Literal(Integer(n));
      |s| > 0 && !IsSpace(s[0]) && !IsSpace(s[|s| - 1]) && '\n' !in s
  {
    var s := Literal(Integer(n));
    var ds := Decimal(if n < 0 then -n else n);
    assert forall k :: 0 <= k < |ds| ==> IsDigit(ds[k]);
    if n < 0 {
      assert s == "-" + ds;
      assert forall k :: 1 <= k < |s| ==> s[k] == ds[k - 1];
    }
  }
}
