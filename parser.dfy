/**
 * The tokenizer loop of mdoc/parser.py (`parse`, lines 123-146): the readers
 * are tried in a fixed order on the remaining text; the first that applies
 * either raises or hands back the new text, the new offset and a token.
 */
module Parser {
  import opened Lexemes
  import opened Values
  import opened Readers

  /** The entries of the `readers` list (lines 124-131). */
  datatype Reader =
    | MultilineCommentReader
    | SinglelineCommentReader
    | VariableReader
    | HeadingReader
    | WidgetReader
    | EmptyLineReader

  /** The order in which `parse` tries the readers. */
  const Order: seq<Reader> := [
    MultilineCommentReader,
    SinglelineCommentReader,
    VariableReader,
    HeadingReader,
    WidgetReader,
    EmptyLineReader
  ]

  /** Calling one reader on the remaining text. */
  function Apply(reader: Reader, t: string, offset: nat): Step {
    match reader
    case MultilineCommentReader => ReadMultilineComment(t, offset)
    case SinglelineCommentReader => ReadSinglelineComment(t, offset)
    case VariableReader => ReadVariable(t, offset)
    case HeadingReader => ReadHeading(t, offset)
    case WidgetReader => ReadWidget(t, offset)
    case EmptyLineReader => ReadEmptyLine(t, offset)
  }

  /**
   * The `for ... break ... else` of lines 136-144: the answer of the first
   * reader in `rs` that does not return `None`, or Skip when none applies.
   */
  function FirstApplicable(rs: seq<Reader>, t: string, offset: nat): (r: Step)
    ensures r.Skip? <==> forall k :: 0 <= k < |rs| ==> Apply(rs[k], t, offset).Skip?
    ensures !r.Skip? ==> exists i :: 0 <= i < |rs| && r == Apply(rs[i], t, offset) && FirstNonSkip(rs, i, t, offset)
  {
    FirstFrom(rs, 0, t, offset)
  }

  /** The same search started at the `j`-th reader: the `for` loop with its first `j` turns done. */
  function FirstFrom(rs: seq<Reader>, j: nat, t: string, offset: nat): (r: Step)
    requires j <= |rs|
    ensures r.Skip? <==> forall k :: j <= k < |rs| ==> Apply(rs[k], t, offset).Skip?
    ensures !r.Skip? ==> exists i :: j <= i < |rs| && r == Apply(rs[i], t, offset) && SkipsBetween(rs, j, i, t, offset)
    decreases |rs| - j
  {
    if j == |rs| then Skip
    else
      var first := Apply(rs[j], t, offset);
      if !first.Skip? then
        assert SkipsBetween(rs, j, j, t, offset);
        first
      else
        var r := FirstFrom(rs, j + 1, t, offset);
        if r.Skip? then r
        else
          var i :| j + 1 <= i < |rs| && r == Apply(rs[i], t, offset) && SkipsBetween(rs, j + 1, i, t, offset);
          assert SkipsBetween(rs, j, i, t, offset);
          r
  }

  /** Every reader of `rs` from the `j`-th to before the `i`-th declines. */
  predicate SkipsBetween(rs: seq<Reader>, j: nat, i: nat, t: string, offset: nat)
    requires j <= i <= |rs|
  {
    forall k :: j <= k < i ==> Apply(rs[k], t, offset).Skip?
  }

  /** Every reader of `rs` before the `i`-th declines. */
  predicate FirstNonSkip(rs: seq<Reader>, i: nat, t: string, offset: nat)
    requires i <= |rs|
  {
    SkipsBetween(rs, 0, i, t, offset)
  }

  /** The opening `reader` looks for is absent, so it returns `None`. */
  predicate Declines(reader: Reader, t: string) {
    match reader
    case MultilineCommentReader => !StartsWith(t, Quotes)
    case SinglelineCommentReader => ';' !in FirstLine(t)
    case VariableReader => !StartsWith(t, "$")
    case HeadingReader => !StartsWith(t, "#")
    case WidgetReader => !StartsWith(t, "@")
    case EmptyLineReader => !AllSpace(FirstLine(t))
  }

  /** Every reader declines: none of the openings any of them looks for. */
  predicate NoReaderApplies(t: string) {
    forall k :: 0 <= k < |Order| ==> Declines(Order[k], t)
  }

  /**
   * What keeps the loop of `parse` finite: a step either consumes text, or
   * (a single-line comment) keeps the length and removes the `;` from the
   * first line.
   */
  function Measure(t: string): nat {
    2 * |t| + if ';' in FirstLine(t) then 1 else 0
  }

  /** The `i`-th reader is the first one that does not decline `t`. */
  predicate FirstTaker(t: string, i: nat)
    requires i < |Order|
  {
    !Declines(Order[i], t) && forall k :: 0 <= k < i ==> Declines(Order[k], t)
  }

  /** What every reader guarantees, whichever it is. */
  lemma {:induction false} StepFacts(reader: Reader, t: string, offset: nat)
    ensures var r := Apply(reader, t, offset);
      && (r.Skip? <==> Declines(reader, t))
      && (r.Fail? ==> r.error.offset == offset)
      && (|t| > 0 && r.Next? ==> offset <= r.offset && r.offset + |r.rest| == offset + |t| && Measure(r.rest) < Measure(t))
  {
  }

  /** One turn of the `while` loop of `parse` on non-empty text. */
  function Dispatch(t: string, offset: nat): (r: Step)
    ensures r.Skip? <==> NoReaderApplies(t)
    ensures r.Fail? ==> r.error.offset == offset
    ensures |t| > 0 && r.Next? ==> offset <= r.offset && r.offset + |r.rest| == offset + |t|
    ensures |t| > 0 && r.Next? ==> Measure(r.rest) < Measure(t)
    ensures !r.Skip? ==> exists i :: 0 <= i < |Order| && FirstTaker(t, i) && r == Apply(Order[i], t, offset)
  {
    forall reader ensures var r := Apply(reader, t, offset);
      && (r.Skip? <==> Declines(reader, t))
      && (r.Fail? ==> r.error.offset == offset)
      && (|t| > 0 && r.Next? ==> offset <= r.offset && r.offset + |r.rest| == offset + |t| && Measure(r.rest) < Measure(t))
    {
      StepFacts(reader, t, offset);
    }
    FirstApplicable(Order, t, offset)
  }

  /** The outcome of `parse`: the token list, or the SyntaxError it raises. */
  datatype Outcome = Ok(tokens: seq<Token>) | Err(error: ParseError)

  /** `tokens` emitted before the rest of the run produced `o`. */
  function Prefixed(tokens: seq<Token>, o: Outcome): (r: Outcome)
    ensures r.Err? <==> o.Err?
    ensures r.Err? ==> r == o
    ensures r.Ok? ==> r.tokens == tokens + o.tokens
  {
    if o.Ok? then Ok(tokens + o.tokens) else o
  }

  /**
   * `parse` as a recursive definition: what the loop produces from the
   * remaining text `t` at `offset`. Every token of a successful run is well
   * formed (heading levels are 1 to 3, names are `[-a-z0-9]+`, widgets have no
   * body, every value is one read_value can produce), and a run that fails
   * names an offset inside the text it was given.
   */
  function Tokenize(t: string, offset: nat): (r: Outcome)
    ensures r.Err? ==> offset <= r.error.offset < offset + |t|
    ensures r.Ok? ==> forall k :: 0 <= k < |r.tokens| ==> WellFormedToken(r.tokens[k])
    decreases Measure(t)
  {
    if t == [] then Ok([])
    else
      match Dispatch(t, offset)
      case Skip => Err(ParseError(UnknownSyntax, offset))
      case Fail(e) => Err(e)
      case Next(rest, next, token) =>
        DispatchWellFormed(t, offset);
        Prefixed([token], Tokenize(rest, next))
  }

  /**
   * `parse` (lines 123-146): the loop over the text, and inside it the loop
   * over the readers.
   */
  method Parse(input: string) returns (r: Outcome)
    ensures r == Tokenize(input, 0)
  {
    var text := input;
    var offset: nat := 0;
    var tokens: seq<Token> := [];
    while |text| > 0
      invariant offset + |text| == |input|
      invariant Tokenize(input, 0) == Prefixed(tokens, Tokenize(text, offset))
      decreases Measure(text)
    {
      var response := Respond(text, offset);
      match response
      case Skip =>
        return Err(ParseError(UnknownSyntax, offset));
      case Fail(e) =>
        return Err(e);
      case Next(rest, next, token) =>
        PrefixedAppend(tokens, token, Tokenize(rest, next));
        text, offset, tokens := rest, next, tokens + [token];
    }
    return Ok(tokens);
  }

  /** The `for` loop of lines 136-144: the readers are asked in order until one does not return `None`. */
  method Respond(text: string, offset: nat) returns (response: Step)
    ensures response == Dispatch(text, offset)
  {
    response := Skip;
    var i := 0;
    while i < |Order| && response.Skip?
      invariant 0 <= i <= |Order|
      invariant response.Skip? ==> FirstFrom(Order, 0, text, offset) == FirstFrom(Order, i, text, offset)
      invariant !response.Skip? ==> FirstFrom(Order, 0, text, offset) == response
    {
      response := Apply(Order[i], text, offset);
      i := i + 1;
    }
  }

  lemma {:induction false} PrefixedAppend(tokens: seq<Token>, token: Token, o: Outcome)
    ensures Prefixed(tokens, Prefixed([token], o)) == Prefixed(tokens + [token], o)
  {
    if o.Ok? {
      assert tokens + ([token] + o.tokens) == tokens + [token] + o.tokens;
    }
  }

  /** A token of the shape its reader can build. */
  predicate WellFormedToken(token: Token) {
    match token
    case MultilineComment(_) => true
    case SinglelineComment(text) => '\n' !in text
    case EmptyLine => true
    case Heading(level, text) => 1 <= level <= 3 && '\n' !in text
    case Widget(name, params, body) =>
      IsName(name) && body.None? && forall key :: key in params ==> IsName(key) && WellFormed(params[key])
    case Variable(name, value) => IsName(name) && WellFormed(value)
  }

  /** Whatever reader takes the text, the token it returns is well formed. */
  lemma {:induction false} StepWellFormed(reader: Reader, t: string, offset: nat)
    ensures Apply(reader, t, offset).Next? ==> WellFormedToken(Apply(reader, t, offset).token)
  {
    if reader == SinglelineCommentReader && Apply(reader, t, offset).Next? {
      var r := ReadSinglelineComment(t, offset);
      var line := FirstLine(t);
      var cut := |line| - |r.token.text| - 1;
      assert r.token.text == line[cut + 1..];
    }
  }

  /** Whichever reader takes the text, the token of the step is well formed. */
  lemma {:induction false} DispatchWellFormed(t: string, offset: nat)
    ensures Dispatch(t, offset).Next? ==> WellFormedToken(Dispatch(t, offset).token)
  {
    var r := Dispatch(t, offset);
    if r.Next? {
      var i :| 0 <= i < |Order| && FirstTaker(t, i) && r == Apply(Order[i], t, offset);
      StepWellFormed(Order[i], t, offset);
    }
  }

  /** Text that no reader accepts is "Unknown syntax" at the current offset. */
  lemma {:induction false} UnknownSyntaxAt(t: string, offset: nat)
    requires |t| > 0 && NoReaderApplies(t)
    ensures Tokenize(t, offset) == Err(ParseError(UnknownSyntax, offset))
  {
  }

  /** Text made of whitespace only is a single EMPTY_LINE token. */
  lemma {:induction false} BlankText(t: string, offset: nat)
    requires |t| > 0 && AllSpace(t)
    ensures Tokenize(t, offset) == Ok([EmptyLine])
  {
    var line := FirstLine(t);
    assert line == t[..|line|];
    assert AllSpace(line);
    assert t[0] != '"' && t[0] != '$' && t[0] != '#' && t[0] != '@';
    assert FirstTaker(t, 5);
  }
}
