/**
 * What each reader of mdoc/parser.py makes of a line written in the shape it
 * documents: the token read back is the one the line was written from.
 */
module ReaderLaws {
  import opened Lexemes
  import opened Values
  import opened Readers

  /**
   * `$name:` followed by whitespace (line breaks included), a literal, spaces
   * up to the end of the line: read_variable (lines 110-120) gives the name and
   * the value read_value assigns to the literal.
   */
  lemma {:induction false} VariableLine(name: string, gap: string, lit: string, pad: string, rest: string, offset: nat)
    requires IsName(name) && AllSpace(gap) && AllSpace(pad) && '\n' !in pad
    requires |lit| > 0 && !IsSpace(lit[0]) && !IsSpace(lit[|lit| - 1]) && '\n' !in lit
    requires rest == [] || rest[0] == '\n'
    requires ReadValue(lit).Some?
    ensures var r := ReadVariable("$" + name + ":" + gap + lit + pad + rest, offset);
      r.Next? && r.token == Variable(name, ReadValue(lit).value)
  {
    var t, n, s, e := VariableLayout(name, gap, lit, pad, rest);
    VariableAt(t, offset, n, s, e);
  }

  /**
   * The same line with a literal none of the five patterns spans (such as
   * `$x: hello`): read_value returns None (line 107), unpacking it at line 120
   * fails, and read_variable reports a broken value.
   */
  lemma {:induction false} VariableUnclassified(name: string, gap: string, lit: string, pad: string, rest: string, offset: nat)
    requires IsName(name) && AllSpace(gap) && AllSpace(pad) && '\n' !in pad
    requires |lit| > 0 && !IsSpace(lit[0]) && !IsSpace(lit[|lit| - 1]) && '\n' !in lit
    requires rest == [] || rest[0] == '\n'
    requires ReadValue(lit).None?
    ensures ReadVariable("$" + name + ":" + gap + lit + pad + rest, offset) == Fail(ParseError(BrokenValue, offset))
  {
    var t, n, s, e := VariableLayout(name, gap, lit, pad, rest);
  }

  /**
   * `$` not followed by a name and `:` (an empty name, as in `$: 5` or `$ x`,
   * or a name followed by anything but `:`): VARIABLE does not match and read_variable raises at
   * line 116.
   */
  lemma {:induction false} VariableWithoutColon(name: string, after: string, offset: nat)
    requires AllIn(name, NameChar)
    requires after == [] || (!IsNameChar(after[0]) && (name == [] || after[0] != ':'))
    ensures ReadVariable("$" + name + after, offset) == Fail(ParseError(BrokenVariable, offset))
  {
    var t := "$" + name + after;
    var n := 1 + |name|;
    assert t[..1] == "$";
    assert t[1..n] == name;
    assert n < |t| ==> t[n] == after[0];
    SpanIs(t, 1, n, NameChar);
  }

  /** Where the name, the value and the end of a variable line sit, as the scans of read_variable find them. */
  lemma {:induction false} VariableLayout(name: string, gap: string, lit: string, pad: string, rest: string)
    returns (t: string, n: nat, s: nat, e: nat)
    requires IsName(name) && AllSpace(gap) && AllSpace(pad) && '\n' !in pad
    requires |lit| > 0 && !IsSpace(lit[0]) && !IsSpace(lit[|lit| - 1]) && '\n' !in lit
    requires rest == [] || rest[0] == '\n'
    ensures t == "$" + name + ":" + gap + lit + pad + rest
    ensures 1 < n < s < e <= |t| && t[1..n] == name && t[s..e] == lit
    ensures StartsWith(t, "$") && Span(t, 1, NameChar) == n && t[n] == ':' && Span(t, n + 1, Space) == s
    ensures TrimEnd(t, s, LineEnd(t, s)) == e
  {
    var line;
    t, n, s, e, line := VariablePieces(name, gap, lit, pad, rest);
    VariableScans(t, n, s, e, line);
  }

  lemma {:induction false} VariablePieces(name: string, gap: string, lit: string, pad: string, rest: string)
    returns (t: string, n: nat, s: nat, e: nat, line: nat)
    requires |name| > 0 && |lit| > 0
    ensures t == "$" + name + ":" + gap + lit + pad + rest
    ensures 1 < n < s < e <= line <= |t| && n == 1 + |name| && s == n + 1 + |gap| && e == s + |lit| && line == e + |pad|
    ensures t[..1] == "$" && t[1..n] == name && t[n] == ':' && t[n + 1..s] == gap && t[s..e] == lit && t[e..line] == pad && t[line..] == rest
  {
    t := "$" + name + ":" + gap + lit + pad + rest;
    n := 1 + |name|;
    s := n + 1 + |gap|;
    e := s + |lit|;
    line := e + |pad|;
    assert t[..1] == "$";
    assert t[1..n] == name;
    assert t[n] == ':';
    assert t[n + 1..s] == gap;
    assert t[s..e] == lit;
    assert t[e..line] == pad;
    assert t[line..] == rest;
  }

  lemma {:induction false} VariableScans(t: string, n: nat, s: nat, e: nat, line: nat)
    requires 1 < n < s < e <= line <= |t| && AllIn(t[1..n], NameChar) && t[n] == ':' && AllSpace(t[n + 1..s])
    requires !IsSpace(t[s]) && !IsSpace(t[e - 1]) && '\n' !in t[s..e]
    requires AllSpace(t[e..line]) && '\n' !in t[e..line] && (line == |t| || t[line] == '\n')
    ensures Span(t, 1, NameChar) == n && Span(t, n + 1, Space) == s && TrimEnd(t, s, LineEnd(t, s)) == e
  {
    SpanIs(t, 1, n, NameChar);
    SpanIs(t, n + 1, s, Space);
    assert '\n' !in t[s..line] by {
      assert t[s..line] == t[s..e] + t[e..line];
    }
    LineEndIs(t, s, line);
    TrimEndIs(t, s, line, e);
  }

  /** ReadVariable, once the name run, the value start and the value end are known. */
  lemma {:induction false} VariableAt(t: string, offset: nat, n: nat, s: nat, e: nat)
    requires 1 < n < s < e <= |t| && StartsWith(t, "$") && Span(t, 1, NameChar) == n && t[n] == ':'
    requires Span(t, n + 1, Space) == s && TrimEnd(t, s, LineEnd(t, s)) == e && ReadValue(t[s..e]).Some?
    ensures var r := ReadVariable(t, offset);
      r.Next? && r.token == Variable(t[1..n], ReadValue(t[s..e]).value)
  {
  }

  /**
   * `n` `#` (1 to 3), a space, the text, a space, `n` `#`, trailing spaces and
   * a blank line: read_heading (lines 62-69) gives level `n` and the text,
   * whatever the text holds (even `#` runs and spaces).
   */
  lemma {:induction false} HeadingOfLine(n: nat, text: string, pad: string, rest: string, offset: nat)
    requires 1 <= n <= 3 && '\n' !in text && AllSpace(pad) && '\n' !in pad
    ensures var marks := Repeat('#', n);
      var r := ReadHeading(marks + " " + text + " " + marks + pad + "\n\n" + rest, offset);
      r.Next? && r.token == Heading(n, text)
  {
    var t, j, L := HeadingLayout(n, text, pad, rest);
    HeadingAt(t, n, j, L, offset);
  }

  /** Where the parts of a heading line sit. */
  lemma {:induction false} HeadingLayout(n: nat, text: string, pad: string, rest: string) returns (t: string, j: nat, L: nat)
    requires 1 <= n && '\n' !in text && AllSpace(pad) && '\n' !in pad
    ensures t == Repeat('#', n) + " " + text + " " + Repeat('#', n) + pad + "\n\n" + rest
    ensures n + 1 <= j && j + 1 + n <= L && L + 2 <= |t| && t[n + 1..j] == text
    ensures t[..n] == Repeat('#', n) && t[n] == ' '
    ensures '\n' !in t[n + 1..L] && t[L] == '\n' && t[L + 1] == '\n'
    ensures t[j] == ' ' && t[j + 1..j + 1 + n] == Repeat('#', n) && AllSpace(t[j + 1 + n..L + 2])
  {
    var marks := Repeat('#', n);
    t := marks + " " + text + " " + marks + pad + "\n\n" + rest;
    j := n + 1 + |text|;
    var i := j + 1 + n;
    L := i + |pad|;
    assert t[..n] == marks;
    assert t[n + 1..j] == text;
    assert t[j + 1..i] == marks;
    assert t[i..L + 2] == pad + "\n\n";
    assert t[n + 1..L] == text + " " + marks + pad;
  }

  /** The same, stated on positions: the opening run ends at `n`, the closing one starts after `j`, the line ends at `L`. */
  lemma {:induction false} HeadingAt(t: string, n: nat, j: nat, L: nat, offset: nat)
    requires 1 <= n <= 3 && n + 1 <= j && j + 1 + n <= L && L + 2 <= |t|
    requires t[..n] == Repeat('#', n) && t[n] == ' '
    requires '\n' !in t[n + 1..L] && t[L] == '\n' && t[L + 1] == '\n'
    requires t[j] == ' ' && t[j + 1..j + 1 + n] == Repeat('#', n)
    requires AllSpace(t[j + 1 + n..L + 2])
    ensures var r := ReadHeading(t, offset); r.Next? && r.token == Heading(n, t[n + 1..j])
  {
    HeadingOpens(t, n);
    LineEndIs(t, n + 1, L);
    HeadingClosesAt(t, n, j, L);
    ReadHeadingAt(t, offset, n, j);
  }

  /** The opening run of `n` `#` followed by a space is what the scan for `#` finds. */
  lemma {:induction false} HeadingOpens(t: string, n: nat)
    requires n < |t| && t[..n] == Repeat('#', n) && t[n] == ' '
    ensures Span(t, 0, Hash) == n
  {
    forall k | 0 <= k < n ensures t[0..n][k] == '#' { assert t[0..n][k] == t[..n][k]; }
    SpanIs(t, 0, n, Hash);
  }

  /** The closing run after `j`, then whitespace holding a blank line: the search from the end of the line stops at `j`. */
  lemma {:induction false} HeadingClosesAt(t: string, n: nat, j: nat, L: nat)
    requires 1 <= n && n + 1 <= j && j + 1 + n <= L && L + 2 <= |t| && LineEnd(t, n + 1) == L
    requires t[L] == '\n' && t[L + 1] == '\n' && t[j] == ' ' && t[j + 1..j + 1 + n] == Repeat('#', n)
    requires AllSpace(t[j + 1 + n..L + 2])
    ensures HeadingClose(t, n, L) == Some(j)
  {
    var i := j + 1 + n;
    SpanAtLeast(t, i, L + 2, Space);
    LastPairFinds(t, i, Span(t, i, Space), L);
    assert t[i..L + 1] == t[i..L + 2][..L + 1 - i];
    NoLaterClose(t, n, j, L);
    forall k | j + 1 <= k < j + 1 + n ensures t[k] == '#' {
      assert t[k] == t[j + 1..j + 1 + n][k - j - 1];
    }
    HeadingCloseIs(t, n, L, j);
  }

  /** Past the closing run only `#` and whitespace follow on the line, so no later position closes the heading. */
  lemma {:induction false} NoLaterClose(t: string, n: nat, j: nat, L: nat)
    requires 1 <= n && j + 1 + n <= L && L + 1 <= |t|
    requires t[j + 1..j + 1 + n] == Repeat('#', n) && AllSpace(t[j + 1 + n..L + 1])
    ensures forall k: nat :: j < k < L ==> !ClosesHeading(t, n, k)
  {
    var i := j + 1 + n;
    forall k: nat | j < k < L ensures !ClosesHeading(t, n, k) {
      if k < i {
        assert t[k] == t[j + 1..i][k - j - 1];
      } else {
        assert t[k + 1] == t[i..L + 1][k + 1 - i];
        if k + 1 + n <= |t| {
          assert t[k + 1..k + 1 + n][0] == t[k + 1];
        }
      }
    }
  }

  /**
   * `"""`, a body without `"`, `"""` and spaces to the end of the line:
   * read_multiline_comment (lines 32-41) gives the body as it stands (line
   * breaks and surrounding spaces kept) and consumes the closing line break.
   */
  lemma {:induction false} CommentOfLines(body: string, pad: string, rest: string, offset: nat)
    requires '"' !in body && AllSpace(pad) && '\n' !in pad && (rest == [] || rest[0] == '\n')
    ensures var r := ReadMultilineComment(Quotes + body + Quotes + pad + rest, offset);
      r.Next? && r.token == MultilineComment(body) && r.rest == (if rest == [] then [] else rest[1..])
  {
    var t, k := CommentLayout(body, pad, rest);
    CommentAt(t, k, body, pad, rest, offset);
  }

  /** A comment laid out in `t`, with its body at `3..k` and the closing quotes at `k`. */
  lemma {:induction false} CommentAt(t: string, k: nat, body: string, pad: string, rest: string, offset: nat)
    requires '"' !in body && AllSpace(pad) && '\n' !in pad && (rest == [] || rest[0] == '\n')
    requires k == 3 + |body| && k + 3 + |pad| <= |t| && t[..3] == Quotes && t[3..k] == body && t[k..k + 3] == Quotes
    requires t[k + 3..k + 3 + |pad|] == pad && t[k + 3 + |pad|..] == rest
    ensures var r := ReadMultilineComment(t, offset);
      r.Next? && r.token == MultilineComment(body) && r.rest == (if rest == [] then [] else rest[1..])
  {
    LineEndIs(t, k + 3, k + 3 + |pad|);
    forall j: nat | 3 <= j < k ensures !ClosesComment(t, j) {
      assert t[j] == t[3..k][j - 3];
    }
    FindCloserIs(t, 3, k);
  }

  lemma {:induction false} CommentLayout(body: string, pad: string, rest: string) returns (t: string, k: nat)
    requires '"' !in body && AllSpace(pad) && '\n' !in pad && (rest == [] || rest[0] == '\n')
    ensures t == Quotes + body + Quotes + pad + rest && k == 3 + |body|
    ensures k + 3 + |pad| <= |t| && t[..3] == Quotes && t[3..k] == body && t[k..k + 3] == Quotes
    ensures t[k + 3..k + 3 + |pad|] == pad && t[k + 3 + |pad|..] == rest
  {
    t := Quotes + body + Quotes + pad + rest;
    k := 3 + |body|;
    assert t[3..k] == body;
    assert t[k..k + 3] == Quotes;
    assert t[k + 3..k + 3 + |pad|] == pad;
    assert t[k + 3 + |pad|..] == rest;
  }

  /** Text opening with `"""` and holding no further `"` has no closer, so read_multiline_comment raises (line 38). */
  lemma {:induction false} CommentUnterminated(t: string, offset: nat)
    requires StartsWith(t, Quotes) && '"' !in t[3..]
    ensures ReadMultilineComment(t, offset) == Fail(ParseError(BrokenComment, offset))
  {
    var r := ReadMultilineComment(t, offset);
    if r.Next? {
      var k := 3 + |r.token.text|;
      assert t[k] == t[3..][k - 3];
    }
  }

  /** Writing a well-formed value after `$name: ` and reading the line back gives the same name and value. */
  lemma {:induction false} VariableOfValue(name: string, v: Value, rest: string, offset: nat)
    requires IsName(name) && WellFormed(v) && (rest == [] || rest[0] == '\n')
    ensures var r := ReadVariable("$" + name + ": " + Literal(v) + rest, offset);
      r.Next? && r.token == Variable(name, v)
  {
    var lit := Literal(v);
    Respell(name, lit, rest);
    LiteralShape(v);
    ReadLiteral(v);
    VariableLine(name, " ", lit, "", rest, offset);
  }

  /** `$name: lit` is `$name:`, a one-space gap, the literal and an empty pad. */
  lemma {:induction false} Respell(name: string, lit: string, rest: string)
    ensures "$" + name + ": " + lit + rest == "$" + name + ":" + " " + lit + "" + rest
  {
    assert ": " == ":" + " ";
  }

  /**
   * `$name:` with nothing but whitespace after it: the lazy value takes a
   * whitespace character when there is one other than a line break, and
   * read_value rejects it (BrokenValue); otherwise VARIABLE does not match
   * (BrokenVariable).
   */
  lemma {:induction false} VariableWithoutValue(name: string, gap: string, offset: nat)
    requires IsName(name) && AllSpace(gap)
    ensures var r := ReadVariable("$" + name + ":" + gap, offset);
      r == Fail(ParseError(if exists m :: 0 <= m < |gap| && gap[m] != '\n' then BrokenValue else BrokenVariable, offset))
  {
    var t := "$" + name + ":" + gap;
    var n := 1 + |name|;
    assert t[1..n] == name;
    SpanIs(t, 1, n, NameChar);
    assert t[n + 1..] == gap;
    SpanIs(t, n + 1, |t|, Space);
    assert (exists k :: n + 1 <= k < |t| && t[k] != '\n') <==> (exists m :: 0 <= m < |gap| && gap[m] != '\n') by {
      if exists m :: 0 <= m < |gap| && gap[m] != '\n' {
        var m :| 0 <= m < |gap| && gap[m] != '\n';
        assert t[n + 1 + m] == gap[m];
      }
      if exists k :: n + 1 <= k < |t| && t[k] != '\n' {
        var k :| n + 1 <= k < |t| && t[k] != '\n';
        assert t[k] == gap[k - n - 1];
      }
    }
  }

  /** A run of four or more `#` can never open a heading: read_heading raises (line 67). */
  lemma {:induction false} HeadingTooDeep(t: string, offset: nat)
    requires StartsWith(t, "####")
    ensures ReadHeading(t, offset) == Fail(ParseError(BrokenHeading, offset))
  {
    assert t[..4] == "####";
    SpanAtLeast(t, 0, 4, Hash);
    assert StartsWith(t, "#");
  }

  /** Without a blank line (two consecutive line breaks) anywhere, text starting with `#` is a broken heading. */
  lemma {:induction false} HeadingNeedsBlankLine(t: string, offset: nat)
    requires StartsWith(t, "#")
    requires forall k :: 0 <= k < |t| - 1 ==> !(t[k] == '\n' && t[k + 1] == '\n')
    ensures ReadHeading(t, offset) == Fail(ParseError(BrokenHeading, offset))
  {
  }
}
