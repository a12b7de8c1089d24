/**
 * The six readers of mdoc/parser.py (lines 32-120). Each looks at the start of
 * the remaining text and either does not apply (Skip, Python's `None`), raises
 * (Fail), or returns the new text, the new offset and a token (Next).
 */
module Readers {
  import opened Lexemes
  import opened Values
  import opened Widgets

  /** The token tuples the readers emit. */
  datatype Token =
    | MultilineComment(text: string)                                      // ('MULTILINE_COMMENT', text)
    | SinglelineComment(text: string)                                     // ('SINGLE_LINE_COMMENT', text)
    | EmptyLine                                                           // ('EMPTY_LINE',)
    | Heading(level: nat, text: string)                                   // ('HEADING', level, text)
    | Widget(name: string, params: map<string, Value>, body: Option<string>) // ('WIDGET', name, params, None)
    | Variable(name: string, value: Value)                                // ('VARIABLE', name, kind, value)

  /** Which reader raised, or that none applied; the offset is where the failing step started. */
  datatype ErrorKind =
    | BrokenComment   // unterminated multi-line comment (line 38)
    | BrokenVariable  // VARIABLE does not match (line 116)
    | BrokenValue     // read_value found no pattern, so unpacking its None fails (lines 107, 120)
    | BrokenHeading   // line 67
    | BrokenWidget    // line 80
    | UnknownSyntax   // no reader applies (line 144)

  datatype ParseError = ParseError(kind: ErrorKind, offset: nat)

  /** What one reader makes of the text. */
  datatype Step =
    | Skip
    | Fail(error: ParseError)
    | Next(rest: string, offset: nat, token: Token)

  /** A successful step consumed a non-empty prefix of `t` and advanced the offset by its length. */
  predicate ConsumesPrefix(t: string, offset: nat, r: Step) {
    r.Next? ==> |r.rest| < |t| && r.rest == t[|t| - |r.rest|..] && r.offset == offset + (|t| - |r.rest|)
  }

  const Quotes: string := "\"\"\""

  /**
   * `"""` at `k` closes a multi-line comment (MULTI_LINE_COMMENT, line 4) when
   * only whitespace follows it on its line.
   */
  predicate ClosesComment(t: string, k: nat) {
    k + 3 <= |t| && t[k..k + 3] == Quotes && AllSpace(t[k + 3..LineEnd(t, k + 3)])
  }

  /** The first closing `"""` at or after `k`: the lazy `(.*?)` of MULTI_LINE_COMMENT. */
  function FindCloser(t: string, k: nat): (r: Option<nat>)
    requires k <= |t|
    ensures r.None? ==> forall j: nat :: k <= j ==> !ClosesComment(t, j)
    ensures r.Some? ==> k <= r.value && ClosesComment(t, r.value)
    ensures r.Some? ==> forall j: nat :: k <= j < r.value ==> !ClosesComment(t, j)
    decreases |t| - k
  {
    if k + 3 > |t| then None
    else if ClosesComment(t, k) then Some(k)
    else FindCloser(t, k + 1)
  }

  /** The lazy search stops at `k` when `k` closes the comment and nothing from `from` on does earlier. */
  lemma {:induction false} FindCloserIs(t: string, from: nat, k: nat)
    requires from <= k && ClosesComment(t, k)
    requires forall j: nat :: from <= j < k ==> !ClosesComment(t, j)
    ensures FindCloser(t, from) == Some(k)
    decreases k - from
  {
    if from < k {
      FindCloserIs(t, from + 1, k);
    }
  }

  /**
   * read_multiline_comment (lines 32-41): text starting with `"""` runs to the
   * first `"""` that ends its line; the line break after it is consumed too.
   * The inner text is emitted as it stands.
   */
  function ReadMultilineComment(t: string, offset: nat): (r: Step)
    ensures r.Skip? <==> !StartsWith(t, Quotes)
    ensures r.Fail? ==> r.error == ParseError(BrokenComment, offset)
    ensures r.Fail? ==> forall j: nat :: 3 <= j ==> !ClosesComment(t, j)
    ensures ConsumesPrefix(t, offset, r)
    ensures r.Next? ==> r.token.MultilineComment? && StartsWith(t, Quotes + r.token.text)
    ensures r.Next? ==> var k := 3 + |r.token.text|;
      ClosesComment(t, k) && (forall j: nat :: 3 <= j < k ==> !ClosesComment(t, j))
      && |t| - |r.rest| == (if LineEnd(t, k + 3) < |t| then LineEnd(t, k + 3) + 1 else |t|)
  {
    if !StartsWith(t, Quotes) then Skip
    else
      match FindCloser(t, 3)
      case None => Fail(ParseError(BrokenComment, offset))
      case Some(k) =>
        var e := LineEnd(t, k + 3);
        var end := if e < |t| then e + 1 else e;
        assert t[..k] == Quotes + t[3..k];
        Next(t[end..], offset + end, MultilineComment(t[3..k]))
  }

  /**
   * read_singleline_comment (lines 44-50): when the first line holds a `;`, the
   * rest of that line after the first `;` is the comment, and the `;` and the
   * comment are overwritten with as many spaces. The text keeps its length and
   * the offset does not move.
   */
  function ReadSinglelineComment(t: string, offset: nat): (r: Step)
    ensures r.Skip? <==> ';' !in FirstLine(t)
    ensures !r.Fail?
    ensures r.Next? ==> |r.rest| == |t| && r.offset == offset && ';' !in FirstLine(r.rest)
    ensures r.Next? ==> r.token.SinglelineComment?
    ensures r.Next? ==>
      var line := FirstLine(t);
      var cut := |line| - |r.token.text| - 1;
      0 <= cut && ';' !in line[..cut] && line[cut..] == [';'] + r.token.text
      && r.rest[..cut] == line[..cut] && r.rest[cut..|line|] == Repeat(' ', |line| - cut)
      && r.rest[|line|..] == t[|line|..]
  {
    var line := FirstLine(t);
    match IndexOf(line, ';')
    case None => Skip
    case Some(cut) =>
      BlankFrom(t, cut);
      assert line[cut..] == [';'] + line[cut + 1..];
      Next(line[..cut] + Repeat(' ', |line| - cut) + t[|line|..], offset, SinglelineComment(line[cut + 1..]))
  }

  /** The first line blanked from its first `;` on: the text keeps its length and its first line holds no `;`. */
  lemma {:induction false} BlankFrom(t: string, cut: nat)
    requires cut < |FirstLine(t)| && ';' !in FirstLine(t)[..cut]
    ensures var line := FirstLine(t);
      var rest := line[..cut] + Repeat(' ', |line| - cut) + t[|line|..];
      |rest| == |t| && ';' !in FirstLine(rest) && rest[..cut] == line[..cut]
      && rest[cut..|line|] == Repeat(' ', |line| - cut) && rest[|line|..] == t[|line|..]
  {
    var line := FirstLine(t);
    var blanked := line[..cut] + Repeat(' ', |line| - cut);
    var rest := blanked + t[|line|..];
    assert ';' !in blanked by {
      forall k | 0 <= k < |blanked| ensures blanked[k] != ';' {
        if k < cut { assert blanked[k] == line[..cut][k]; }
      }
    }
    assert '\n' !in blanked by {
      forall k | 0 <= k < |blanked| ensures blanked[k] != '\n' {
        if k < cut { assert blanked[k] == line[k]; }
      }
    }
    FirstLineOf(blanked, t[|line|..]);
    assert rest[..cut] == line[..cut] && rest[cut..|line|] == Repeat(' ', |line| - cut);
  }

  /**
   * read_empty_line (lines 53-59), EMPTY_LINE `\s*$\n?`: the greedy `\s*`
   * takes every blank line at the start of the text and gives back only the
   * whitespace of the first non-blank line.
   */
  function ReadEmptyLine(t: string, offset: nat): (r: Step)
    ensures r.Skip? <==> !AllSpace(FirstLine(t))
    ensures !r.Fail?
    ensures |t| > 0 ==> ConsumesPrefix(t, offset, r)
    ensures r.Next? ==> r.token == EmptyLine && |r.rest| <= |t| && AllSpace(t[..|t| - |r.rest|])
    ensures r.Next? && r.rest != [] ==> t[|t| - |r.rest| - 1] == '\n' && !AllSpace(FirstLine(r.rest))
  {
    match SkipBlankLines(t, 0)
    case None => Skip
    case Some(n) =>
      assert t[0..n] == t[..n];
      Next(t[n..], offset + n, EmptyLine)
  }

  /**
   * read_variable (lines 110-120), VARIABLE `\$([-a-z0-9]+):\s*(.+?)\s*$\n?`.
   * The value starts at the first non-space character after `:` (the leading
   * `\s*` may cross line breaks) and runs to the last non-space character of
   * that line; the blank lines after it are consumed. When nothing but
   * whitespace follows `:`, the lazy value falls back to one whitespace
   * character if there is one that is not a line break (and read_value rejects
   * it), and otherwise the pattern fails.
   */
  function ReadVariable(t: string, offset: nat): (r: Step)
    ensures r.Skip? <==> !StartsWith(t, "$")
    ensures r.Fail? ==> r.error.offset == offset && r.error.kind in {BrokenVariable, BrokenValue}
    ensures ConsumesPrefix(t, offset, r)
    ensures r.Next? ==> r.token.Variable? && IsName(r.token.name) && StartsWith(t, "$" + r.token.name + ":")
    ensures r.Next? ==> WellFormed(r.token.value)
  {
    if !StartsWith(t, "$") then Skip
    else
      var n := Span(t, 1, NameChar);
      if n == 1 || n == |t| || t[n] != ':' then Fail(ParseError(BrokenVariable, offset))
      else
        var s := Span(t, n + 1, Space);
        if s == |t| then
          var kind := if exists k :: n + 1 <= k < |t| && t[k] != '\n' then BrokenValue else BrokenVariable;
          Fail(ParseError(kind, offset))
        else
          assert t[..n + 1] == "$" + t[1..n] + ":";
          SpanRun(t, 1, NameChar);
          VariableValue(t, offset, n, s)
  }

  /**
   * VARIABLE once its name `t[1..n]` and the whitespace up to `s` are read: the
   * value is the rest of the line from `s` without its trailing whitespace, it
   * fails exactly when read_value finds no pattern for that literal, and the
   * blank lines after it are consumed.
   */
  function VariableValue(t: string, offset: nat, n: nat, s: nat): (r: Step)
    requires 1 < n < s < |t| && t[0] == '$' && IsName(t[1..n]) && t[n] == ':' && !IsSpace(t[s])
    ensures !r.Skip? && ConsumesPrefix(t, offset, r)
    ensures r.Fail? ==> r.error == ParseError(BrokenValue, offset)
    ensures r.Next? ==> r.token.Variable? && r.token.name == t[1..n] && WellFormed(r.token.value)
    ensures var e := TrimEnd(t, s, LineEnd(t, s));
      && (r.Fail? <==> ReadValue(t[s..e]).None?)
      && (r.Next? ==> r.token.value == ReadValue(t[s..e]).value)
      && (r.Next? ==> SkipBlankLines(t, e).Some? && |t| - |r.rest| == SkipBlankLines(t, e).value)
  {
    var line := LineEnd(t, s);
    var e := TrimEnd(t, s, line);
    assert e > s by { assert t[s..line][0] == t[s]; }
    SameLine(t, s, e);
    var end := SkipBlankLines(t, e).value;
    match ReadValue(t[s..e])
    case None => Fail(ParseError(BrokenValue, offset))
    case Some(v) =>
      Next(t[end..], offset + end, Variable(t[1..n], v))
  }

  /**
   * A closing space at `j` for a heading opened by `n` `#`: the same run of `#`
   * follows it, then whitespace holding a blank line (`\1\s*$\n\n`).
   */
  predicate ClosesHeading(t: string, n: nat, j: nat) {
    j < |t| && t[j] == ' ' && j + 1 + n <= |t| && (forall k :: j + 1 <= k < j + 1 + n ==> t[k] == '#')
    && BlankPairEnd(t, j + 1 + n).Some?
  }

  /**
   * The greedy `(.*)` of HEADING: the closing space is tried from the end of
   * the line backwards (only positions below `hi` are left to try).
   */
  function HeadingClose(t: string, n: nat, hi: nat): (r: Option<nat>)
    requires n < |t| && hi <= LineEnd(t, n + 1)
    ensures r.Some? ==> n + 1 <= r.value < hi && ClosesHeading(t, n, r.value)
    ensures r.Some? ==> forall j: nat :: r.value < j < hi ==> !ClosesHeading(t, n, j)
    ensures r.None? ==> forall j: nat :: n + 1 <= j < hi ==> !ClosesHeading(t, n, j)
    decreases hi
  {
    if hi <= n + 1 then None
    else if ClosesHeading(t, n, hi - 1) then Some(hi - 1)
    else HeadingClose(t, n, hi - 1)
  }

  /**
   * read_heading (lines 62-69), HEADING `(#{1,3}) (.*) \1\s*$\n\n`: a run of one
   * to three `#`, a space, the text, a space, the same run, then optional
   * whitespace and a blank line. Of the runs `#{1,3}` may try only the whole
   * leading run can be followed by a space, so a longer run fails.
   */
  function ReadHeading(t: string, offset: nat): (r: Step)
    ensures r.Skip? <==> !StartsWith(t, "#")
    ensures r.Fail? ==> r.error == ParseError(BrokenHeading, offset)
    ensures ConsumesPrefix(t, offset, r)
    ensures r.Next? ==> r.token.Heading? && 1 <= r.token.level <= 3 && '\n' !in r.token.text
    ensures r.Next? ==> HeadingLine(t, r.token.level, r.token.text)
    ensures r.Next? ==> EndsWithBlankLine(t, |t| - |r.rest|)
  {
    if !StartsWith(t, "#") then Skip
    else
      var n := Span(t, 0, Hash);
      OpeningRun(t);
      if n > 3 || n == |t| || t[n] != ' ' then Fail(ParseError(BrokenHeading, offset))
      else
        var r := HeadingAfterMarks(t, offset, n);
        HeadingTakenFacts(t, n, r);
        r
  }

  /** Text opening with `#` opens with a non-empty run of `#`. */
  lemma {:induction false} OpeningRun(t: string)
    requires StartsWith(t, "#")
    ensures 1 <= Span(t, 0, Hash) && AllIn(t[0..Span(t, 0, Hash)], Hash)
  {
    assert t[0] == t[..1][0];
    SpanRun(t, 0, Hash);
  }

  lemma {:induction false} HeadingTakenFacts(t: string, n: nat, r: Step)
    requires 1 <= n <= 3 && n < |t| && (r.Next? ==> HeadingTaken(t, n, r))
    ensures r.Next? ==> r.token.Heading? && 1 <= r.token.level <= 3 && '\n' !in r.token.text
    ensures r.Next? ==> HeadingLine(t, r.token.level, r.token.text) && EndsWithBlankLine(t, |t| - |r.rest|)
  {
  }

  /** HEADING once its opening run of `n` `#` and the space after it are read. */
  function HeadingAfterMarks(t: string, offset: nat, n: nat): (r: Step)
    requires 1 <= n < |t| && AllIn(t[0..n], Hash) && t[n] == ' '
    ensures !r.Skip? && ConsumesPrefix(t, offset, r)
    ensures r.Fail? ==> r.error == ParseError(BrokenHeading, offset)
    ensures r.Next? <==> HeadingClose(t, n, LineEnd(t, n + 1)).Some?
    ensures r.Next? ==> HeadingTaken(t, n, r)
    ensures r.Next? ==> TakesLastClose(t, n, r)
  {
    var close := HeadingClose(t, n, LineEnd(t, n + 1));
    if close.None? then Fail(ParseError(BrokenHeading, offset))
    else
      var j := close.value;
      HeadingShape(t, n, j);
      var end := BlankPairEnd(t, j + 1 + n).value;
      PairEndsBlank(t, j + 1 + n);
      var rest := t[end..];
      assert |t| - |rest| == end;
      var r := Next(rest, offset + end, Heading(n, t[n + 1..j]));
      HeadingTakenBy(t, n, j, end, r);
      r
  }

  /** The heading step for `n` `#`: its text, the line it reads, the blank line it ends with, and the greedy choices it makes. */
  predicate HeadingTaken(t: string, n: nat, r: Step)
    requires n < |t|
  {
    && r.Next? && r.token.Heading? && r.token.level == n && '\n' !in r.token.text
    && HeadingLine(t, n, r.token.text)
    && |r.rest| <= |t| && EndsWithBlankLine(t, |t| - |r.rest|)
  }

  /**
   * What HEADING decides for text opening with `#`: it succeeds exactly when
   * the opening run has at most three `#`, is followed by a space, and some
   * position on the first line closes the heading.
   */
  lemma {:induction false} HeadingOutcome(t: string, offset: nat)
    ensures var n := Span(t, 0, Hash);
      StartsWith(t, "#") ==>
        (ReadHeading(t, offset).Next? <==> n <= 3 && n < |t| && t[n] == ' ' && exists j: nat :: n + 1 <= j < LineEnd(t, n + 1) && ClosesHeading(t, n, j))
    ensures ReadHeading(t, offset).Next? ==> TakesLastClose(t, Span(t, 0, Hash), ReadHeading(t, offset))
  {
    var n := Span(t, 0, Hash);
    if StartsWith(t, "#") && n <= 3 && n < |t| && t[n] == ' ' {
      OpeningRun(t);
      assert ReadHeading(t, offset) == HeadingAfterMarks(t, offset, n);
      AfterMarksOutcome(t, offset, n);
    }
  }

  /** HEADING after its opening run: it succeeds exactly when some position on the line closes the heading, and then takes the last one. */
  lemma {:induction false} AfterMarksOutcome(t: string, offset: nat, n: nat)
    requires 1 <= n < |t| && AllIn(t[0..n], Hash) && t[n] == ' '
    ensures HeadingAfterMarks(t, offset, n).Next? <==> exists j: nat :: n + 1 <= j < LineEnd(t, n + 1) && ClosesHeading(t, n, j)
    ensures HeadingAfterMarks(t, offset, n).Next? ==> TakesLastClose(t, n, HeadingAfterMarks(t, offset, n))
  {
    CloseFound(t, n);
  }

  /** Some position on the line closes the heading exactly when the greedy search finds one. */
  lemma {:induction false} CloseFound(t: string, n: nat)
    requires n < |t|
    ensures HeadingClose(t, n, LineEnd(t, n + 1)).Some? <==> exists j: nat :: n + 1 <= j < LineEnd(t, n + 1) && ClosesHeading(t, n, j)
  {
    var close := HeadingClose(t, n, LineEnd(t, n + 1));
    if close.Some? {
      assert n + 1 <= close.value < LineEnd(t, n + 1) && ClosesHeading(t, n, close.value);
    }
  }

  /** A step ending its text at the greedy closing position `j`, and consuming what follows the closing run, is the heading step. */
  lemma {:induction false} HeadingTakenBy(t: string, n: nat, j: nat, end: nat, r: Step)
    requires n < |t| && HeadingClose(t, n, LineEnd(t, n + 1)) == Some(j)
    requires r.Next? && r.token == Heading(n, t[n + 1..j]) && '\n' !in t[n + 1..j] && HeadingLine(t, n, t[n + 1..j])
    requires j + 1 + n <= |t| && BlankPairEnd(t, j + 1 + n) == Some(end) && EndsWithBlankLine(t, end) && |r.rest| == |t| - end
    ensures HeadingTaken(t, n, r) && TakesLastClose(t, n, r)
  {
    assert |r.token.text| == j - n - 1;
  }

  /**
   * The heading step `r` opened by `n` `#` ends its text at the greedy closing
   * position `j` (by HeadingClose's contract: `j` closes the heading and no
   * later position on the line does), and consumed the text up to where the
   * greedy `\s*$\n\n` after the closing run stops.
   */
  predicate TakesLastClose(t: string, n: nat, r: Step)
    requires n < |t| && r.Next? && r.token.Heading?
  {
    var j := n + 1 + |r.token.text|;
    && HeadingClose(t, n, LineEnd(t, n + 1)) == Some(j)
    && BlankPairEnd(t, j + 1 + n) == Some(|t| - |r.rest|)
  }

  /** The greedy choice is `j` when `j` closes the heading and no later position on the line does. */
  lemma {:induction false} HeadingCloseIs(t: string, n: nat, hi: nat, j: nat)
    requires n < |t| && hi <= LineEnd(t, n + 1) && n + 1 <= j < hi && ClosesHeading(t, n, j)
    requires forall k: nat :: j < k < hi ==> !ClosesHeading(t, n, k)
    ensures HeadingClose(t, n, hi) == Some(j)
  {
  }

  /** ReadHeading, once the opening run and the closing position are known. */
  lemma {:induction false} ReadHeadingAt(t: string, offset: nat, n: nat, j: nat)
    requires 1 <= n <= 3 && n < |t| && Span(t, 0, Hash) == n && t[n] == ' '
    requires HeadingClose(t, n, LineEnd(t, n + 1)) == Some(j)
    ensures ReadHeading(t, offset).Next? && ReadHeading(t, offset).token == Heading(n, t[n + 1..j])
  {
    assert StartsWith(t, "#") by { assert t[..1][0] == t[0]; }
  }

  /** `t` opens with the heading line `level` `#`, a space, `text`, a space, `level` `#`. */
  predicate HeadingLine(t: string, level: nat, text: string) {
    StartsWith(t, Repeat('#', level) + " " + text + " " + Repeat('#', level))
  }

  /** The `k` characters consumed end with an empty line: two line breaks. */
  predicate EndsWithBlankLine(t: string, k: nat) {
    2 <= k <= |t| && t[k - 2] == '\n' && t[k - 1] == '\n'
  }

  lemma {:induction false} PairEndsBlank(t: string, i: nat)
    requires i <= |t| && BlankPairEnd(t, i).Some?
    ensures EndsWithBlankLine(t, BlankPairEnd(t, i).value)
  {
    var e := BlankPairEnd(t, i).value;
    assert t[e - 2] == '\n' && t[e - 1] == '\n';
  }

  lemma {:induction false} HeadingShape(t: string, n: nat, j: nat)
    requires n < |t| && AllIn(t[0..n], Hash) && t[n] == ' '
    requires n + 1 <= j < LineEnd(t, n + 1) && ClosesHeading(t, n, j)
    ensures '\n' !in t[n + 1..j]
    ensures HeadingLine(t, n, t[n + 1..j])
    ensures BlankPairEnd(t, j + 1 + n).Some?
  {
    var marks := Repeat('#', n);
    forall k | 0 <= k < n ensures t[j + 1..j + 1 + n][k] == marks[k] {
      assert t[j + 1..j + 1 + n][k] == t[j + 1 + k];
    }
    HashRun(t, n);
    NoBreakBefore(t, n + 1, j);
    HeadingConcat(t, n, j, Repeat('#', n));
  }

  lemma {:induction false} HeadingConcat(t: string, n: nat, j: nat, marks: string)
    requires n < j && j + 1 + n <= |t| && t[..n] == marks && t[n] == ' ' && t[j] == ' ' && t[j + 1..j + 1 + n] == marks
    ensures StartsWith(t, marks + " " + t[n + 1..j] + " " + marks)
  {
    assert t[..j + 1 + n] == t[..n] + [t[n]] + t[n + 1..j] + [t[j]] + t[j + 1..j + 1 + n];
  }

  /**
   * read_widget (lines 71-88), WIDGET_INLINE_REGEXP `@([-a-z0-9]+)\(...\)\s*$`:
   * the match stops before the line break that ends it. The widget never
   * carries a body (its fourth field is always None).
   */
  function ReadWidget(t: string, offset: nat): (r: Step)
    ensures r.Skip? <==> !StartsWith(t, "@")
    ensures r.Fail? ==> r.error == ParseError(BrokenWidget, offset)
    ensures ConsumesPrefix(t, offset, r)
    ensures r.Next? ==> r.token.Widget? && r.token.body.None? && IsName(r.token.name)
    ensures r.Next? ==> StartsWith(t, "@" + r.token.name + "(") && forall key :: key in r.token.params ==> IsName(key)
    ensures r.Next? ==> forall key :: key in r.token.params ==> WellFormed(r.token.params[key])
  {
    if !StartsWith(t, "@") then Skip
    else
      var n := Span(t, 1, NameChar);
      if n == 1 || n == |t| || t[n] != '(' then Fail(ParseError(BrokenWidget, offset))
      else
        match WidgetArgs(t, n + 1)
        case None => Fail(ParseError(BrokenWidget, offset))
        case Some(args) =>
          WidgetArgsValid(t, n + 1);
          SpanRun(t, 1, NameChar);
          WidgetNext(t, offset, n, args)
  }

  /** The step WIDGET takes once the name ends at `n` and the parameter list at `args.end`. */
  function WidgetNext(t: string, offset: nat, n: nat, args: Args): (r: Step)
    requires 1 < n < args.end <= |t| && t[0] == '@' && t[n] == '(' && AllIn(t[1..n], NameChar)
    requires Valued(args.params)
    ensures r.Next? && ConsumesPrefix(t, offset, r) && r.token.Widget? && r.token.body.None?
    ensures r.token.name == t[1..n] && IsName(r.token.name) && StartsWith(t, "@" + r.token.name + "(")
    ensures forall key :: key in r.token.params ==> IsName(key) && WellFormed(r.token.params[key])
    ensures r.token.params == Collect(args.params) && |t| - |r.rest| == args.end
  {
    CollectWellFormed(args.params);
    assert t[..n + 1] == "@" + t[1..n] + "(";
    Next(t[args.end..], offset + args.end, Widget(t[1..n], Collect(args.params), None))
  }

  /**
   * What WIDGET decides for text opening with `@`: it succeeds exactly when a
   * non-empty name is followed by `(` and a parameter list the recognizer
   * accepts; the dictionary is then the one collected from that list, and the
   * step consumes the list up to the end of its line, right after the `)` and
   * the blanks that follow it.
   */
  lemma {:induction false} WidgetOutcome(t: string, offset: nat)
    ensures StartsWith(t, "@") ==> var n := Span(t, 1, NameChar);
      (ReadWidget(t, offset).Next? <==> 1 < n < |t| && t[n] == '(' && WidgetArgs(t, n + 1).Some?)
    ensures StartsWith(t, "@") && ReadWidget(t, offset).Next? ==> var n := Span(t, 1, NameChar);
      && n < |t| && WidgetArgs(t, n + 1).Some?
      && Valued(WidgetArgs(t, n + 1).value.params)
      && ReadWidget(t, offset).token.params == Collect(WidgetArgs(t, n + 1).value.params)
      && |t| - |ReadWidget(t, offset).rest| == WidgetArgs(t, n + 1).value.end
      && ClosedAt(t, n + 1, |t| - |ReadWidget(t, offset).rest|)
  {
    if StartsWith(t, "@") {
      var n := Span(t, 1, NameChar);
      if 1 < n < |t| && t[n] == '(' && WidgetArgs(t, n + 1).Some? {
        WidgetStep(t, offset, n, WidgetArgs(t, n + 1).value);
        WidgetArgsClosed(t, n + 1);
      }
    }
  }

  /** A recognized widget line: the step collects the dictionary of the list and consumes the text up to where the list ends. */
  lemma {:induction false} WidgetStep(t: string, offset: nat, n: nat, args: Args)
    requires StartsWith(t, "@") && n == Span(t, 1, NameChar) && 1 < n < |t| && t[n] == '('
    requires WidgetArgs(t, n + 1) == Some(args)
    ensures ReadWidget(t, offset).Next? && Valued(args.params) && ReadWidget(t, offset).token.params == Collect(args.params)
    ensures |t| - |ReadWidget(t, offset).rest| == args.end
  {
    WidgetArgsValid(t, n + 1);
    SpanRun(t, 1, NameChar);
    var r := WidgetNext(t, offset, n, args);
    assert ReadWidget(t, offset) == r;
  }

  /** ReadWidget, once the name run and the parameter list are known: every literal has a value and the dictionary is built from the pairs. */
  lemma {:induction false} ReadWidgetAt(t: string, offset: nat, n: nat) returns (args: Args)
    requires StartsWith(t, "@") && 1 < n < |t| && Span(t, 1, NameChar) == n && t[n] == '('
    requires WidgetArgs(t, n + 1).Some?
    ensures WidgetArgs(t, n + 1) == Some(args)
    ensures forall k :: 0 <= k < |args.params| ==> ReadValue(args.params[k].1).Some?
    ensures ReadWidget(t, offset) == Next(t[args.end..], offset + args.end, Widget(t[1..n], Collect(args.params), None))
  {
    args := WidgetArgs(t, n + 1).value;
    WidgetArgsValid(t, n + 1);
  }
}
