/**
 * The parameter list of a widget: WIDGET_INLINE_REGEXP after `@name(`
 * (mdoc/parser.py:27-30) and the dictionary built from its parameters
 * (mdoc/parser.py:84-87).
 *
 * The list is `(\s*|P(,P)*)\)\s*$` where P is PARAMETER. Its only ambiguous
 * part is a string value `"(.*)"`: `.*` is greedy and stays on one line, so
 * the engine tries every closing quote on that line from the last one
 * backwards and keeps the first whose continuation matches. The recognizer
 * below does the same; this is why two string parameters on one line collapse
 * into a single value. Every other token is matched longest-first: a shorter
 * match leaves a digit, a name character or `.` next, and no continuation
 * starts with one (NoContinuation).
 *
 * Python collects the parameters by running `findall` over the matched list;
 * on a list this recognizer accepted, `findall`'s greedy string value stops at
 * the last quote of its line inside the list, which is the quote chosen here,
 * so the pairs are collected while recognizing.
 */
module Widgets {
  import opened Lexemes
  import opened Values

  /** The (name, literal) pairs of a parameter list in order, and where the whole match ends. */
  datatype Args = Args(params: seq<(string, string)>, end: nat)

  /** Every pair has a name and a literal that ReadValue converts. */
  predicate Valued(ps: seq<(string, string)>) {
    forall k :: 0 <= k < |ps| ==> IsName(ps[k].0) && ReadValue(ps[k].1).Some?
  }

  /** Every pair has a name and a literal that one of the value patterns spans. */
  predicate Classified(ps: seq<(string, string)>) {
    forall k :: 0 <= k < |ps| ==> IsName(ps[k].0) && Lexical(ps[k].1)
  }

  /** The parameter list starting right after `(`: an empty (whitespace-only) list is tried first. */
  function WidgetArgs(t: string, i: nat): (r: Option<Args>)
    requires i <= |t|
    ensures r.Some? ==> i < r.value.end <= |t|
  {
    var w := Span(t, i, Space);
    if w < |t| && t[w] == ')' && BlankRunEnd(t, w + 1).Some? then
      Some(Args([], BlankRunEnd(t, w + 1).value))
    else
      Param(t, i)
  }

  /** `\s*([-a-z0-9]+)\s*=\s*(value)\s*` followed by the rest of the list. */
  function Param(t: string, i: nat): (r: Option<Args>)
    requires i <= |t|
    ensures r.Some? ==> i < r.value.end <= |t| && |r.value.params| > 0
    decreases |t| - i, 2, 0
  {
    var a := Span(t, i, Space);
    var b := Span(t, a, NameChar);
    if a == b then None
    else
      var c := Span(t, b, Space);
      if c == |t| || t[c] != '=' then None
      else
        ParamValue(t, a, b, c + 1)
  }

  /** `\s*(value)` after the `=` that follows the name at `a..b`, with the rest of the list after it. */
  function ParamValue(t: string, a: nat, b: nat, p: nat): (r: Option<Args>)
    requires a <= b <= p <= |t|
    ensures r.Some? ==> p < r.value.end <= |t| && |r.value.params| > 0 && r.value.params[0].0 == t[a..b]
    decreases |t| - p, 4, 0
  {
    TryValue(t, a, b, Span(t, p, Space))
  }

  /**
   * The value alternatives at `d` in the engine's order: STRING first, then
   * FLOAT, INTEGER, BOOLEAN and IDENTIFIER; the first whose continuation
   * matches wins.
   */
  function TryValue(t: string, a: nat, b: nat, d: nat): (r: Option<Args>)
    requires a <= b <= d <= |t|
    ensures r.Some? ==> d < r.value.end <= |t| && |r.value.params| > 0 && r.value.params[0].0 == t[a..b]
    decreases |t| - d, 3, 0
  {
    if d < |t| && t[d] == '"' then TryString(t, a, b, d, LineEnd(t, d + 1)) else TryOthers(t, a, b, d)
  }

  /**
   * STRING `"(.*)"`: `.*` is greedy and stays on the line, so the closing
   * quotes before `hi` are tried from the last one back; after them, the
   * other alternatives.
   */
  function TryString(t: string, a: nat, b: nat, d: nat, hi: nat): (r: Option<Args>)
    requires a <= b <= d < |t| && t[d] == '"' && d < hi <= LineEnd(t, d + 1)
    ensures r.Some? ==> d < r.value.end <= |t| && |r.value.params| > 0 && r.value.params[0].0 == t[a..b]
    decreases |t| - d, 2, hi
  {
    if hi <= d + 1 then TryOthers(t, a, b, d)
    else if t[hi - 1] == '"' then Attempt(t, a, b, d, Some(hi), TryString(t, a, b, d, hi - 1))
    else TryString(t, a, b, d, hi - 1)
  }

  /** FLOAT, INTEGER, BOOLEAN and IDENTIFIER, in this order, each with its longest match. */
  function TryOthers(t: string, a: nat, b: nat, d: nat): (r: Option<Args>)
    requires a <= b <= d <= |t|
    ensures r.Some? ==> d < r.value.end <= |t| && |r.value.params| > 0 && r.value.params[0].0 == t[a..b]
    decreases |t| - d, 1, 0
  {
    Attempt(t, a, b, d, FloatMatch(t, d),
      Attempt(t, a, b, d, IntegerMatch(t, d),
        Attempt(t, a, b, d, BooleanMatch(t, d),
          Attempt(t, a, b, d, IdentifierMatch(t, d), None))))
  }

  /**
   * The pair `name=t[d..e]` followed by the rest of the list, when the rest
   * matches after `e`; otherwise, and when the alternative has no match, the
   * outcome `next` of the alternatives after it.
   */
  function Attempt(t: string, a: nat, b: nat, d: nat, e: Option<nat>, next: Option<Args>): (r: Option<Args>)
    requires a <= b <= d <= |t| && (e.Some? ==> d < e.value <= |t|)
    requires next.Some? ==> d < next.value.end <= |t| && |next.value.params| > 0 && next.value.params[0].0 == t[a..b]
    ensures r.Some? ==> d < r.value.end <= |t| && |r.value.params| > 0 && r.value.params[0].0 == t[a..b]
    ensures r.Some? && r != next ==> e.Some? && r.value.params[0].1 == t[d..e.value]
    decreases |t| - d, 0, 0
  {
    if e.None? then next
    else
      match AfterValue(t, e.value)
      case Some(more) => Some(Args([(t[a..b], t[d..e.value])] + more.params, more.end))
      case None => next
  }

  /** After a value: `\s*`, then `,` and another parameter, or `)` and `\s*$`. */
  function AfterValue(t: string, p: nat): (r: Option<Args>)
    requires p <= |t|
    ensures r.Some? ==> p < r.value.end <= |t|
    decreases |t| - p, 0, 0
  {
    var q := Span(t, p, Space);
    if q < |t| && t[q] == ',' then Param(t, q + 1)
    else if q < |t| && t[q] == ')' then
      match BlankRunEnd(t, q + 1)
      case None => None
      case Some(e) => Some(Args([], e))
    else None
  }

  /**
   * The match ends right after `)\s*$`: some `)` at or after `lo` is followed
   * by blanks up to `end`, the end of the line (or of the text).
   */
  predicate ClosedAt(t: string, lo: nat, end: nat) {
    exists q :: lo <= q < end && CloseRun(t, q, end)
  }

  /** The `)` at `q` is followed by blanks up to `end`, the end of its line. */
  predicate CloseRun(t: string, q: nat, end: nat) {
    q < end <= |t| && t[q] == ')' && BlankRunEnd(t, q + 1) == Some(end)
  }

  lemma ClosedAtIntro(t: string, lo: nat, q: nat, end: nat)
    requires lo <= q < end <= |t| && t[q] == ')' && BlankRunEnd(t, q + 1) == Some(end)
    ensures ClosedAt(t, lo, end)
  {
    assert CloseRun(t, q, end);
  }

  lemma ClosedAtFrom(t: string, lo: nat, mid: nat, end: nat)
    requires lo <= mid && ClosedAt(t, mid, end)
    ensures ClosedAt(t, lo, end)
  {
  }

  /** A recognized parameter list, empty or not, ends right after its `)` and the blanks that end its line. */
  lemma {:induction false} WidgetArgsClosed(t: string, i: nat)
    requires i <= |t|
    ensures WidgetArgs(t, i).Some? ==> ClosedAt(t, i, WidgetArgs(t, i).value.end)
  {
    var w := Span(t, i, Space);
    if w < |t| && t[w] == ')' && BlankRunEnd(t, w + 1).Some? {
      EmptyArgs(t, i, w);
      ClosedAtIntro(t, i, w, BlankRunEnd(t, w + 1).value);
    } else {
      ListArgsClosed(t, i);
    }
  }

  lemma {:induction false} ListArgsClosed(t: string, i: nat)
    requires i <= |t|
    requires var w := Span(t, i, Space); !(w < |t| && t[w] == ')' && BlankRunEnd(t, w + 1).Some?)
    ensures WidgetArgs(t, i).Some? ==> ClosedAt(t, i, WidgetArgs(t, i).value.end)
  {
    assert WidgetArgs(t, i) == Param(t, i);
    ParamClosed(t, i);
  }


  lemma {:induction false} ParamClosed(t: string, i: nat)
    requires i <= |t|
    ensures Param(t, i).Some? ==> ClosedAt(t, i, Param(t, i).value.end)
    decreases |t| - i, 2, 0
  {
    var a := Span(t, i, Space);
    var b := Span(t, a, NameChar);
    if a != b {
      var c := Span(t, b, Space);
      if c < |t| && t[c] == '=' {
        ParamValueClosed(t, a, b, c + 1);
      }
    }
  }

  lemma {:induction false} ParamValueClosed(t: string, a: nat, b: nat, p: nat)
    requires a <= b <= p <= |t|
    ensures ParamValue(t, a, b, p).Some? ==> ClosedAt(t, p, ParamValue(t, a, b, p).value.end)
    decreases |t| - p, 4, 0
  {
    TryValueClosed(t, a, b, Span(t, p, Space));
  }

  lemma {:induction false} TryValueClosed(t: string, a: nat, b: nat, d: nat)
    requires a <= b <= d <= |t|
    ensures TryValue(t, a, b, d).Some? ==> ClosedAt(t, d, TryValue(t, a, b, d).value.end)
    decreases |t| - d, 3, 0
  {
    if d < |t| && t[d] == '"' {
      TryStringClosed(t, a, b, d, LineEnd(t, d + 1));
    } else {
      TryOthersClosed(t, a, b, d);
    }
  }

  lemma {:induction false} TryStringClosed(t: string, a: nat, b: nat, d: nat, hi: nat)
    requires a <= b <= d < |t| && t[d] == '"' && d < hi <= LineEnd(t, d + 1)
    ensures TryString(t, a, b, d, hi).Some? ==> ClosedAt(t, d, TryString(t, a, b, d, hi).value.end)
    decreases |t| - d, 2, hi
  {
    if hi <= d + 1 {
      TryOthersClosed(t, a, b, d);
    } else {
      TryStringClosed(t, a, b, d, hi - 1);
      if t[hi - 1] == '"' {
        AttemptClosed(t, a, b, d, Some(hi), TryString(t, a, b, d, hi - 1));
      }
    }
  }

  lemma {:induction false} TryOthersClosed(t: string, a: nat, b: nat, d: nat)
    requires a <= b <= d <= |t|
    ensures TryOthers(t, a, b, d).Some? ==> ClosedAt(t, d, TryOthers(t, a, b, d).value.end)
    decreases |t| - d, 1, 0
  {
    var identifier := Attempt(t, a, b, d, IdentifierMatch(t, d), None);
    AttemptClosed(t, a, b, d, IdentifierMatch(t, d), None);
    var boolean := Attempt(t, a, b, d, BooleanMatch(t, d), identifier);
    AttemptClosed(t, a, b, d, BooleanMatch(t, d), identifier);
    var integer := Attempt(t, a, b, d, IntegerMatch(t, d), boolean);
    AttemptClosed(t, a, b, d, IntegerMatch(t, d), boolean);
    AttemptClosed(t, a, b, d, FloatMatch(t, d), integer);
  }

  lemma {:induction false} AttemptClosed(t: string, a: nat, b: nat, d: nat, e: Option<nat>, next: Option<Args>)
    requires a <= b <= d <= |t| && (e.Some? ==> d < e.value <= |t|)
    requires next.Some? ==> d < next.value.end <= |t| && |next.value.params| > 0 && next.value.params[0].0 == t[a..b]
    requires next.Some? ==> ClosedAt(t, d, next.value.end)
    ensures Attempt(t, a, b, d, e, next).Some? ==> ClosedAt(t, d, Attempt(t, a, b, d, e, next).value.end)
    decreases |t| - d, 0, 0
  {
    if e.Some? {
      AfterValueClosed(t, e.value);
    }
  }

  lemma {:induction false} AfterValueClosed(t: string, p: nat)
    requires p <= |t|
    ensures AfterValue(t, p).Some? ==> ClosedAt(t, p, AfterValue(t, p).value.end)
    decreases |t| - p, 0, 0
  {
    var q := Span(t, p, Space);
    if q < |t| && t[q] == ',' {
      CommaAt(t, p, q);
      ParamClosed(t, q + 1);
      if Param(t, q + 1).Some? {
        ClosedAtFrom(t, p, q + 1, Param(t, q + 1).value.end);
      }
    } else if q < |t| && t[q] == ')' {
      CloseAt(t, p, q);
      if BlankRunEnd(t, q + 1).Some? {
        ClosedAtIntro(t, p, q, BlankRunEnd(t, q + 1).value);
      }
    }
  }


  /** Where the digits of a number at `d` start: after an optional `-`. */
  function DigitsFrom(t: string, d: nat): (m: nat)
    requires d <= |t|
    ensures d <= m <= d + 1 && m <= |t| && (m == d + 1 <==> (d < |t| && t[d] == '-'))
  {
    if d < |t| && t[d] == '-' then d + 1 else d
  }

  /** The end of the longest FLOAT `-?[0-9]+\.[0-9]+` at `d`, if one starts there. */
  function FloatMatch(t: string, d: nat): (e: Option<nat>)
    requires d <= |t|
    ensures e.Some? ==> d < e.value <= |t|
  {
    var whole := Span(t, DigitsFrom(t, d), Digit);
    if whole > DigitsFrom(t, d) && whole < |t| && t[whole] == '.' && Span(t, whole + 1, Digit) > whole + 1 then
      Some(Span(t, whole + 1, Digit))
    else
      None
  }

  /** The end of the longest INTEGER `-?[0-9]+` at `d`, if one starts there. */
  function IntegerMatch(t: string, d: nat): (e: Option<nat>)
    requires d <= |t|
    ensures e.Some? ==> d < e.value <= |t|
  {
    var whole := Span(t, DigitsFrom(t, d), Digit);
    if whole > DigitsFrom(t, d) then Some(whole) else None
  }

  /** The end of BOOLEAN `(true|false)` at `d`, if one starts there. */
  function BooleanMatch(t: string, d: nat): (e: Option<nat>)
    requires d <= |t|
    ensures e.Some? ==> d < e.value <= |t|
  {
    if StartsWith(t[d..], "true") then Some(d + 4)
    else if StartsWith(t[d..], "false") then Some(d + 5)
    else None
  }

  /** The end of the longest IDENTIFIER `\$([-a-z0-9]+)` at `d`, if one starts there. */
  function IdentifierMatch(t: string, d: nat): (e: Option<nat>)
    requires d <= |t|
    ensures e.Some? ==> d < e.value <= |t|
  {
    if d < |t| && t[d] == '$' && Span(t, d + 1, NameChar) > d + 1 then Some(Span(t, d + 1, NameChar)) else None
  }

  /** Where the sign, the digits before the point and a whole float sit. */
  lemma {:induction false} NumberParts(t: string, d: nat) returns (m: nat, whole: nat, e: nat)
    requires d <= |t|
    ensures m == DigitsFrom(t, d) && m <= whole <= e <= |t|
    ensures AllIn(t[m..whole], Digit) && (whole == |t| || !IsDigit(t[whole]))
    ensures IntegerMatch(t, d) == if whole > m then Some(whole) else None
    ensures FloatMatch(t, d) == if e > whole then Some(e) else None
    ensures e > whole ==> m < whole && whole + 1 < e && t[whole] == '.' && AllIn(t[whole + 1..e], Digit)
  {
    m := DigitsFrom(t, d);
    whole := Span(t, m, Digit);
    SpanRun(t, m, Digit);
    e := if whole > m && whole < |t| && t[whole] == '.' && Span(t, whole + 1, Digit) > whole + 1 then Span(t, whole + 1, Digit) else whole;
    if e > whole {
      SpanRun(t, whole + 1, Digit);
    }
  }

  /** A closing quote on the line ends a string literal. */
  lemma {:induction false} QuoteLexical(t: string, d: nat, hi: nat)
    requires d < |t| && t[d] == '"' && d + 1 < hi <= LineEnd(t, d + 1) && t[hi - 1] == '"'
    ensures IsStringLiteral(t[d..hi]) && Lexical(t[d..hi])
  {
    var line := t[d + 1..LineEnd(t, d + 1)];
    var s := t[d..hi];
    forall k | 1 <= k < |s| - 1 ensures s[k] != '\n' { assert s[k] == line[k - 1]; }
  }

  /** The match of every other alternative is a literal that read_value classifies. */
  lemma {:induction false} MatchesLexical(t: string, d: nat)
    requires d <= |t|
    ensures FloatMatch(t, d).Some? ==> Lexical(t[d..FloatMatch(t, d).value])
    ensures IntegerMatch(t, d).Some? ==> Lexical(t[d..IntegerMatch(t, d).value])
    ensures BooleanMatch(t, d).Some? ==> Lexical(t[d..BooleanMatch(t, d).value])
    ensures IdentifierMatch(t, d).Some? ==> Lexical(t[d..IdentifierMatch(t, d).value])
  {
    var m, whole, e := NumberParts(t, d);
    if whole > m {
      IntegerLexeme(t, d, m, whole);
      if e > whole {
        FloatLexeme(t, d, m, whole, e);
      }
    }
    if StartsWith(t[d..], "true") {
      assert t[d..d + 4] == t[d..][..4];
    } else if StartsWith(t[d..], "false") {
      assert t[d..d + 5] == t[d..][..5];
    }
    if d < |t| && t[d] == '$' && Span(t, d + 1, NameChar) > d + 1 {
      var i := Span(t, d + 1, NameChar);
      SpanRun(t, d + 1, NameChar);
      assert t[d..i][1..] == t[d + 1..i];
    }
  }

  /** Every pair a parameter list yields has a name and a classified literal. */
  lemma {:induction false} ParamValid(t: string, i: nat)
    requires i <= |t|
    ensures Param(t, i).Some? ==> Classified(Param(t, i).value.params)
    decreases |t| - i, 2, 0
  {
    var a := Span(t, i, Space);
    var b := Span(t, a, NameChar);
    if a != b {
      var c := Span(t, b, Space);
      if c < |t| && t[c] == '=' {
        SpanRun(t, a, NameChar);
        ParamValueValid(t, a, b, c + 1);
      }
    }
  }

  lemma {:induction false} ParamValueValid(t: string, a: nat, b: nat, p: nat)
    requires a <= b <= p <= |t| && IsName(t[a..b])
    ensures ParamValue(t, a, b, p).Some? ==> Classified(ParamValue(t, a, b, p).value.params)
    decreases |t| - p, 4, 0
  {
    TryValueValid(t, a, b, Span(t, p, Space));
  }

  lemma {:induction false} TryValueValid(t: string, a: nat, b: nat, d: nat)
    requires a <= b <= d <= |t| && IsName(t[a..b])
    ensures TryValue(t, a, b, d).Some? ==> Classified(TryValue(t, a, b, d).value.params)
    decreases |t| - d, 3, 0
  {
    if d < |t| && t[d] == '"' {
      TryStringValid(t, a, b, d, LineEnd(t, d + 1));
    } else {
      TryOthersValid(t, a, b, d);
    }
  }

  lemma {:induction false} TryStringValid(t: string, a: nat, b: nat, d: nat, hi: nat)
    requires a <= b <= d < |t| && t[d] == '"' && d < hi <= LineEnd(t, d + 1) && IsName(t[a..b])
    ensures TryString(t, a, b, d, hi).Some? ==> Classified(TryString(t, a, b, d, hi).value.params)
    decreases |t| - d, 2, hi
  {
    if hi <= d + 1 {
      TryOthersValid(t, a, b, d);
    } else {
      TryStringValid(t, a, b, d, hi - 1);
      if t[hi - 1] == '"' {
        QuoteLexical(t, d, hi);
        AttemptValid(t, a, b, d, Some(hi), TryString(t, a, b, d, hi - 1));
      }
    }
  }

  lemma {:induction false} TryOthersValid(t: string, a: nat, b: nat, d: nat)
    requires a <= b <= d <= |t| && IsName(t[a..b])
    ensures TryOthers(t, a, b, d).Some? ==> Classified(TryOthers(t, a, b, d).value.params)
    decreases |t| - d, 1, 0
  {
    MatchesLexical(t, d);
    var identifier := Attempt(t, a, b, d, IdentifierMatch(t, d), None);
    AttemptValid(t, a, b, d, IdentifierMatch(t, d), None);
    var boolean := Attempt(t, a, b, d, BooleanMatch(t, d), identifier);
    AttemptValid(t, a, b, d, BooleanMatch(t, d), identifier);
    var integer := Attempt(t, a, b, d, IntegerMatch(t, d), boolean);
    AttemptValid(t, a, b, d, IntegerMatch(t, d), boolean);
    AttemptValid(t, a, b, d, FloatMatch(t, d), integer);
  }

  lemma {:induction false} AttemptValid(t: string, a: nat, b: nat, d: nat, e: Option<nat>, next: Option<Args>)
    requires a <= b <= d <= |t| && (e.Some? ==> d < e.value <= |t|) && IsName(t[a..b])
    requires next.Some? ==> d < next.value.end <= |t| && |next.value.params| > 0 && next.value.params[0].0 == t[a..b]
    requires e.Some? ==> Lexical(t[d..e.value])
    requires next.Some? ==> Classified(next.value.params)
    ensures Attempt(t, a, b, d, e, next).Some? ==> Classified(Attempt(t, a, b, d, e, next).value.params)
    decreases |t| - d, 0, 0
  {
    if e.Some? {
      AfterValueValid(t, e.value);
      if AfterValue(t, e.value).Some? {
        ClassifiedCons((t[a..b], t[d..e.value]), AfterValue(t, e.value).value.params);
      }
    }
  }

  lemma {:induction false} AfterValueValid(t: string, p: nat)
    requires p <= |t|
    ensures AfterValue(t, p).Some? ==> Classified(AfterValue(t, p).value.params)
    decreases |t| - p, 0, 0
  {
    var q := Span(t, p, Space);
    if q < |t| && t[q] == ',' {
      ParamValid(t, q + 1);
    }
  }

  lemma {:induction false} ClassifiedCons(p: (string, string), ps: seq<(string, string)>)
    requires IsName(p.0) && Lexical(p.1) && Classified(ps)
    ensures Classified([p] + ps)
  {
    forall k | 0 <= k < |[p] + ps| ensures IsName(([p] + ps)[k].0) && Lexical(([p] + ps)[k].1) {
      if k > 0 { assert ([p] + ps)[k] == ps[k - 1]; }
    }
  }

  /** The same for a whole list, empty or not: every literal it yields has a value. */
  lemma {:induction false} WidgetArgsValid(t: string, i: nat)
    requires i <= |t|
    ensures WidgetArgs(t, i).Some? ==> Valued(WidgetArgs(t, i).value.params)
  {
    ParamValid(t, i);
    if WidgetArgs(t, i).Some? {
      ClassifiedRead(WidgetArgs(t, i).value.params);
    }
  }

  lemma {:induction false} ClassifiedRead(ps: seq<(string, string)>)
    requires Classified(ps)
    ensures Valued(ps)
  {
  }

  lemma {:induction false} IntegerLexeme(t: string, d: nat, m: nat, e: nat)
    requires d <= m <= d + 1 && m < e <= |t| && AllIn(t[m..e], Digit)
    requires m == d + 1 <==> (d < |t| && t[d] == '-')
    ensures IsIntegerLiteral(t[d..e])
  {
    assert Unsigned(t[d..e]) == t[m..e];
  }

  lemma {:induction false} FloatLexeme(t: string, d: nat, m: nat, whole: nat, e: nat)
    requires d <= m <= d + 1 && m < whole < e <= |t| && t[whole] == '.'
    requires AllIn(t[m..whole], Digit) && AllIn(t[whole + 1..e], Digit) && whole + 1 < e
    requires m == d + 1 <==> (d < |t| && t[d] == '-')
    ensures IsFloatLiteral(t[d..e])
  {
    var u := t[m..e];
    assert Unsigned(t[d..e]) == u;
    var w := whole - m;
    assert u[..w] == t[m..whole];
    assert u[w] == '.';
    SpanIs(u, 0, w, Digit);
    assert u[w + 1..] == t[whole + 1..e];
    assert IsDigits(u[w + 1..]);
  }

  /** A continuation never starts at a digit, a name character or a point: shorter matches need not be tried. */
  lemma {:induction false} NoContinuation(t: string, p: nat)
    requires p < |t| && (IsNameChar(t[p]) || t[p] == '.')
    ensures AfterValue(t, p) == None
  {
    assert Span(t, p, Space) == p;
  }

  /** A character that may follow a value in a parameter list: whitespace, `,` or `)`. */
  predicate Delimiter(c: char) {
    IsSpace(c) || c == ',' || c == ')'
  }

  /**
   * The last `"` before `hi` on the line, when the list continues after it,
   * ends the string value.
   */
  lemma {:induction false} StringFirst(t: string, a: nat, b: nat, d: nat, hi: nat, e: nat)
    requires a <= b <= d < |t| && t[d] == '"' && d < hi <= LineEnd(t, d + 1)
    requires d + 2 <= e <= hi && t[e - 1] == '"' && AfterValue(t, e).Some?
    requires forall m :: e <= m < hi ==> t[m] != '"'
    ensures TryString(t, a, b, d, hi) == Some(Args([(t[a..b], t[d..e])] + AfterValue(t, e).value.params, AfterValue(t, e).value.end))
    decreases hi
  {
    if hi > e {
      StringFirst(t, a, b, d, hi - 1, e);
    }
  }

  /**
   * The canonical literal of a well-formed value at `d`, followed by a
   * delimiter and a continuation, is the alternative that wins; for a string,
   * no `"` may follow on its line.
   */
  lemma {:induction false} LiteralEnd(t: string, a: nat, b: nat, d: nat, e: nat, v: Value)
    requires a <= b <= d && WellFormed(v) && e == d + |Literal(v)| && e < |t| && t[d..e] == Literal(v) && Delimiter(t[e])
    requires v.Str? ==> forall m :: e <= m < LineEnd(t, d + 1) ==> t[m] != '"'
    requires AfterValue(t, e).Some?
    ensures d < e && TryValue(t, a, b, d) == Some(Args([(t[a..b], t[d..e])] + AfterValue(t, e).value.params, AfterValue(t, e).value.end))
  {
    if v.Str? {
      StringEnd(t, d, v.text);
      StringFirst(t, a, b, d, LineEnd(t, d + 1), e);
    } else {
      OtherMatch(t, d, e, v);
      OthersFirst(t, a, b, d, e);
    }
  }

  /** A canonical literal other than a string, before a delimiter, is matched by its own pattern and by none tried before it. */
  lemma {:induction false} OtherMatch(t: string, d: nat, e: nat, v: Value)
    requires WellFormed(v) && !v.Str? && e == d + |Literal(v)| && e < |t| && t[d..e] == Literal(v) && Delimiter(t[e])
    ensures d < e && t[d] != '"'
    ensures || FloatMatch(t, d) == Some(e)
            || (FloatMatch(t, d) == None && IntegerMatch(t, d) == Some(e))
            || (FloatMatch(t, d) == None && IntegerMatch(t, d) == None && BooleanMatch(t, d) == Some(e))
            || (FloatMatch(t, d) == None && IntegerMatch(t, d) == None && BooleanMatch(t, d) == None && IdentifierMatch(t, d) == Some(e))
  {
    match v
    case Float(negative, whole, fraction) =>
      FloatEnd(t, d, e, negative, whole, fraction);
    case Integer(n) =>
      IntegerEnd(t, d, e, n);
    case Boolean(x) =>
      BooleanEnd(t, d, e, x);
    case Identifier(name) =>
      IdentifierEnd(t, d, e, name);
  }

  /** A string literal at `d` opens with `"`, and its closing quote is on the line. */
  lemma {:induction false} StringEnd(t: string, d: nat, text: string)
    requires '\n' !in text && d + |text| + 2 <= |t| && t[d..d + |text| + 2] == "\"" + text + "\""
    ensures t[d] == '"' && t[d + |text| + 1] == '"' && d + |text| + 2 <= LineEnd(t, d + 1)
  {
    var e := d + |text| + 2;
    var lit := "\"" + text + "\"";
    assert t[d] == lit[0];
    forall k | d + 1 <= k < e ensures t[k] != '\n' {
      assert t[k] == lit[k - d];
      if k < e - 1 { assert lit[k - d] == text[k - d - 1]; }
    }
    LineEndBeyond(t, d + 1, e - 1);
    assert t[e - 1] == lit[|lit| - 1];
  }

  /** A float literal at `d`, before a delimiter, is the longest FLOAT match. */
  lemma {:induction false} FloatEnd(t: string, d: nat, e: nat, negative: bool, whole: string, fraction: string)
    requires IsDigits(whole) && IsDigits(fraction)
    requires e == d + |Literal(Float(negative, whole, fraction))| && e < |t| && t[d..e] == Literal(Float(negative, whole, fraction))
    requires Delimiter(t[e])
    ensures t[d] != '"' && FloatMatch(t, d) == Some(e)
  {
    var m, w := FloatLayout(t, d, e, negative, whole, fraction);
    assert t[m] == t[m..w][0];
    SpanIs(t, m, w, Digit);
    SpanIs(t, w + 1, e, Digit);
  }

  /** Where the sign, the digits, the point and the fraction of a float literal at `d` sit. */
  lemma {:induction false} FloatLayout(t: string, d: nat, e: nat, negative: bool, whole: string, fraction: string)
    returns (m: nat, w: nat)
    requires IsDigits(whole) && IsDigits(fraction)
    requires e == d + |Literal(Float(negative, whole, fraction))| && e < |t| && t[d..e] == Literal(Float(negative, whole, fraction))
    ensures d <= m <= d + 1 && m < w && w + 1 < e
    ensures (m == d + 1 <==> t[d] == '-') && t[w] == '.'
    ensures AllIn(t[m..w], Digit) && AllIn(t[w + 1..e], Digit)
  {
    var sign := if negative then "-" else "";
    m := d + |sign|;
    w := m + |whole|;
    SliceAt(t, d, e, sign + whole + "." + fraction);
    AtSplit(t, d, sign + whole + ".", fraction);
    AtSplit(t, d, sign + whole, ".");
    AtSplit(t, d, sign, whole);
    assert t[w + 0] == "."[0];
    if negative {
      assert t[d + 0] == sign[0];
    } else {
      assert t[d + 0] == whole[0];
    }
    AtSlice(t, m, whole);
    AtSlice(t, w + 1, fraction);
  }

  /** An integer literal at `d`, before a delimiter, is no FLOAT and the longest INTEGER match. */
  lemma {:induction false} IntegerEnd(t: string, d: nat, e: nat, n: int)
    requires e == d + |Literal(Integer(n))| && e < |t| && t[d..e] == Literal(Integer(n)) && Delimiter(t[e])
    ensures t[d] != '"' && FloatMatch(t, d) == None && IntegerMatch(t, d) == Some(e)
  {
    var lit := Literal(Integer(n));
    var ds := Decimal(if n < 0 then -n else n);
    var m := if n < 0 then d + 1 else d;
    assert t[m..e] == ds && (t[d] == '-' <==> n < 0) by {
      if n < 0 {
        assert lit == "-" + ds && lit[1..] == ds;
        assert t[m..e] == t[d..e][1..];
      } else {
        assert lit == ds;
        assert t[d] == lit[0] == ds[0];
      }
    }
    assert t[m] == t[m..e][0];
    SpanIs(t, m, e, Digit);
  }

  /** A boolean literal at `d` is neither FLOAT nor INTEGER, and is the BOOLEAN match. */
  lemma {:induction false} BooleanEnd(t: string, d: nat, e: nat, b: bool)
    requires e == d + |Literal(Boolean(b))| && e < |t| && t[d..e] == Literal(Boolean(b))
    ensures t[d] != '"' && FloatMatch(t, d) == None && IntegerMatch(t, d) == None
    ensures BooleanMatch(t, d) == Some(e)
  {
    var lit := Literal(Boolean(b));
    assert t[d] == lit[0];
    assert Span(t, d, Digit) == d;
    assert t[d..][..|lit|] == lit;
    if !b { assert !StartsWith(t[d..], "true") by { assert t[d..][0] == 'f'; } }
  }

  /** An identifier literal at `d`, before a delimiter, is only the IDENTIFIER match. */
  lemma {:induction false} IdentifierEnd(t: string, d: nat, e: nat, name: string)
    requires IsName(name) && e == d + 1 + |name| && e < |t| && t[d..e] == "$" + name && Delimiter(t[e])
    ensures t[d] != '"' && FloatMatch(t, d) == None && IntegerMatch(t, d) == None && BooleanMatch(t, d) == None
    ensures IdentifierMatch(t, d) == Some(e)
  {
    assert t[d] == ("$" + name)[0];
    assert Span(t, d, Digit) == d;
    assert !StartsWith(t[d..], "true") && !StartsWith(t[d..], "false") by { assert t[d..][0] == '$'; }
    assert t[d + 1..e] == name;
    SpanIs(t, d + 1, e, NameChar);
  }

  /** Without an opening quote, the first of the other alternatives that matches, and continues, wins. */
  lemma {:induction false} OthersFirst(t: string, a: nat, b: nat, d: nat, e: nat)
    requires a <= b <= d < e <= |t| && t[d] != '"' && AfterValue(t, e).Some?
    requires || FloatMatch(t, d) == Some(e)
             || (FloatMatch(t, d) == None && IntegerMatch(t, d) == Some(e))
             || (FloatMatch(t, d) == None && IntegerMatch(t, d) == None && BooleanMatch(t, d) == Some(e))
             || (FloatMatch(t, d) == None && IntegerMatch(t, d) == None && BooleanMatch(t, d) == None && IdentifierMatch(t, d) == Some(e))
    ensures TryValue(t, a, b, d) == Some(Args([(t[a..b], t[d..e])] + AfterValue(t, e).value.params, AfterValue(t, e).value.end))
  {
    var identifier := Attempt(t, a, b, d, IdentifierMatch(t, d), None);
    var boolean := Attempt(t, a, b, d, BooleanMatch(t, d), identifier);
    var integer := Attempt(t, a, b, d, IntegerMatch(t, d), boolean);
    assert TryValue(t, a, b, d) == Attempt(t, a, b, d, FloatMatch(t, d), integer);
  }

  /** `\s*` then `)` and blank to the end of the line: the parameter list closes. */
  lemma {:induction false} CloseAfter(t: string, e: nat, q: nat)
    requires e <= q < |t| && AllSpace(t[e..q]) && t[q] == ')' && BlankRunEnd(t, q + 1).Some?
    ensures AfterValue(t, e) == Some(Args([], BlankRunEnd(t, q + 1).value))
  {
    SpanIs(t, e, q, Space);
    CloseAt(t, e, q);
  }

  lemma {:induction false} CloseAt(t: string, e: nat, q: nat)
    requires e <= q < |t| && Span(t, e, Space) == q && t[q] == ')'
    ensures AfterValue(t, e) == (match BlankRunEnd(t, q + 1) case None => None case Some(r) => Some(Args([], r)))
  {
  }

  /** Only whitespace before `)` and a blank rest of line: the list is empty. */
  lemma {:induction false} EmptyArgs(t: string, i: nat, q: nat)
    requires i <= q < |t| && Span(t, i, Space) == q && t[q] == ')' && BlankRunEnd(t, q + 1).Some?
    ensures WidgetArgs(t, i) == Some(Args([], BlankRunEnd(t, q + 1).value))
  {
  }

  /** `\s*` then `,`: another parameter follows. */
  lemma {:induction false} CommaAfter(t: string, e: nat, q: nat)
    requires e <= q < |t| && AllSpace(t[e..q]) && t[q] == ','
    ensures AfterValue(t, e) == Param(t, q + 1)
  {
    SpanIs(t, e, q, Space);
    CommaAt(t, e, q);
  }

  lemma {:induction false} CommaAt(t: string, e: nat, q: nat)
    requires e <= q < |t| && Span(t, e, Space) == q && t[q] == ','
    ensures AfterValue(t, e) == Param(t, q + 1)
  {
  }

  /**
   * One parameter `\s*name\s*=` at `i`, with the name at `a..b` and the `=`
   * at `c`: what follows the `=` decides.
   */
  lemma {:induction false} ParamAt(t: string, i: nat, a: nat, b: nat, c: nat)
    requires i <= a < b <= c < |t| && AllSpace(t[i..a]) && IsName(t[a..b])
    requires AllSpace(t[b..c]) && t[c] == '='
    ensures Param(t, i) == ParamValue(t, a, b, c + 1)
  {
    NameSpans(t, i, a, b, c);
  }

  /** The three runs that open a parameter: whitespace to `a`, the name to `b`, whitespace to `c`. */
  lemma {:induction false} NameSpans(t: string, i: nat, a: nat, b: nat, c: nat)
    requires i <= a < b <= c < |t| && AllSpace(t[i..a]) && IsName(t[a..b])
    requires AllSpace(t[b..c]) && t[c] == '='
    ensures Span(t, i, Space) == a && Span(t, a, NameChar) == b && Span(t, b, Space) == c
  {
    assert t[a] == t[a..b][0];
    SpanIs(t, i, a, Space);
    assert t[b] == '=' || IsSpace(t[b]) by {
      if b < c { assert t[b] == t[b..c][0]; }
    }
    SpanIs(t, a, b, NameChar);
    SpanIs(t, b, c, Space);
  }

  /** Whitespace after `=` is skipped: the value alternatives are tried at its end. */
  lemma {:induction false} ValueAt(t: string, a: nat, b: nat, p: nat, d: nat)
    requires a <= b <= p <= d < |t| && AllSpace(t[p..d]) && !IsSpace(t[d])
    ensures ParamValue(t, a, b, p) == TryValue(t, a, b, d)
  {
    SpanIs(t, p, d, Space);
  }

  /**
   * The dictionary comprehension of line 87: each name is bound to the value of
   * its literal, and a name given twice keeps the later value.
   */
  function Collect(ps: seq<(string, string)>): (m: map<string, Value>)
    requires forall k :: 0 <= k < |ps| ==> ReadValue(ps[k].1).Some?
    ensures forall key :: key in m <==> exists k :: 0 <= k < |ps| && ps[k].0 == key
    ensures forall k :: 0 <= k < |ps| && (forall j :: k < j < |ps| ==> ps[j].0 != ps[k].0) ==>
              m[ps[k].0] == ReadValue(ps[k].1).value
    decreases |ps|
  {
    if |ps| == 0 then map[]
    else
      var init, last := ps[..|ps| - 1], ps[|ps| - 1];
      assert ps == init + [last];
      CollectStep(init, last, Collect(init));
      Collect(init)[last.0 := ReadValue(last.1).value]
  }

  /** Every value in the dictionary is one read_value produced, so it is well formed. */
  lemma {:induction false} CollectWellFormed(ps: seq<(string, string)>)
    requires forall k :: 0 <= k < |ps| ==> ReadValue(ps[k].1).Some?
    ensures forall key :: key in Collect(ps) ==> WellFormed(Collect(ps)[key])
    decreases |ps|
  {
    if |ps| > 0 {
      var init, last := ps[..|ps| - 1], ps[|ps| - 1];
      CollectWellFormed(init);
    }
  }

  lemma {:induction false} CollectStep(init: seq<(string, string)>, last: (string, string), before: map<string, Value>)
    requires forall k :: 0 <= k < |init| ==> ReadValue(init[k].1).Some?
    requires ReadValue(last.1).Some?
    requires forall key :: key in before <==> exists k :: 0 <= k < |init| && init[k].0 == key
    requires forall k :: 0 <= k < |init| && (forall j :: k < j < |init| ==> init[j].0 != init[k].0) ==>
               before[init[k].0] == ReadValue(init[k].1).value
    ensures var ps, m := init + [last], before[last.0 := ReadValue(last.1).value];
      && (forall key :: key in m <==> exists k :: 0 <= k < |ps| && ps[k].0 == key)
      && (forall k :: 0 <= k < |ps| && (forall j :: k < j < |ps| ==> ps[j].0 != ps[k].0) ==>
            m[ps[k].0] == ReadValue(ps[k].1).value)
  {
    var ps, m := init + [last], before[last.0 := ReadValue(last.1).value];
    forall key | key in m ensures exists k :: 0 <= k < |ps| && ps[k].0 == key {
      if key == last.0 {
        assert ps[|init|].0 == key;
      } else {
        var k :| 0 <= k < |init| && init[k].0 == key;
        assert ps[k].0 == key;
      }
    }
    forall k | 0 <= k < |ps| && (forall j :: k < j < |ps| ==> ps[j].0 != ps[k].0)
      ensures m[ps[k].0] == ReadValue(ps[k].1).value
    {
      if k < |init| {
        assert ps[|init|].0 != ps[k].0;
        assert forall j :: k < j < |init| ==> init[j].0 != init[k].0 by {
          forall j | k < j < |init| ensures init[j].0 != init[k].0 { assert ps[j] == init[j]; }
        }
      }
    }
  }
}
