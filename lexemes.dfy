/**
 * Character classes and scanning primitives shared by the patterns of
 * mdoc/parser.py (lines 4-30). Every pattern there is anchored at the start of
 * the remaining text, so each primitive works on a text `t` and a position `i`
 * and reports where a construct starting at `i` stops.
 */
module Lexemes {

  datatype Option<T> = None | Some(value: T)

  /** The character classes the patterns use. */
  datatype CharClass =
    | Space     // `\s` in a Python `str` pattern
    | NameChar  // `[-a-z0-9]`
    | Digit     // `[0-9]`
    | Hash      // `#`

  /** The characters for which Python's `str.isspace()` holds, which is what `\s` matches in a `str` pattern. */
  predicate IsSpace(c: char) {
    c == ' ' || '\t' <= c <= '\r' || '\U{1c}' <= c <= '\U{1f}' || c == '\U{85}' || c == '\U{a0}'
    || c == '\U{1680}' || '\U{2000}' <= c <= '\U{200a}' || c == '\U{2028}' || c == '\U{2029}'
    || c == '\U{202f}' || c == '\U{205f}' || c == '\U{3000}'
  }

  predicate IsNameChar(c: char) {
    c == '-' || 'a' <= c <= 'z' || '0' <= c <= '9'
  }

  predicate IsDigit(c: char) {
    '0' <= c <= '9'
  }

  predicate InClass(c: char, cls: CharClass) {
    match cls
    case Space => IsSpace(c)
    case NameChar => IsNameChar(c)
    case Digit => IsDigit(c)
    case Hash => c == '#'
  }

  predicate AllIn(s: string, cls: CharClass) {
    forall k :: 0 <= k < |s| ==> InClass(s[k], cls)
  }

  /** Whitespace only (possibly empty). */
  predicate AllSpace(s: string) {
    AllIn(s, Space)
  }

  /** `[-a-z0-9]+`: note that a name may start or end with a hyphen and may be all digits. */
  predicate IsName(s: string) {
    |s| > 0 && AllIn(s, NameChar)
  }

  /** `[0-9]+` */
  predicate IsDigits(s: string) {
    |s| > 0 && AllIn(s, Digit)
  }

  predicate StartsWith(t: string, prefix: string) {
    |prefix| <= |t| && t[..|prefix|] == prefix
  }

  /** The string `s` lies in `t` from position `i` on. */
  predicate At(t: string, i: nat, s: string) {
    i + |s| <= |t| && forall k :: 0 <= k < |s| ==> t[i + k] == s[k]
  }

  /** A string that lies in `t` at `i` is the slice of `t` it covers. */
  lemma {:induction false} AtSlice(t: string, i: nat, s: string)
    requires At(t, i, s)
    ensures t[i..i + |s|] == s
  {
    forall k | 0 <= k < |s| ensures t[i..i + |s|][k] == s[k] {
      assert t[i + k] == s[k];
    }
  }

  /** A slice of `t` lies in `t` where it was cut. */
  lemma {:induction false} SliceAt(t: string, i: nat, j: nat, s: string)
    requires i <= j <= |t| && t[i..j] == s
    ensures j == i + |s| && At(t, i, s)
  {
    forall k | 0 <= k < |s| ensures t[i + k] == s[k] {
      assert s[k] == t[i..j][k];
    }
  }

  /** Where a concatenation lies in `t`, its two parts lie one after the other. */
  lemma {:induction false} AtSplit(t: string, i: nat, x: string, y: string)
    requires At(t, i, x + y)
    ensures At(t, i, x) && At(t, i + |x|, y)
  {
    forall k | 0 <= k < |x| ensures t[i + k] == x[k] {
      assert (x + y)[k] == x[k];
    }
    forall k | 0 <= k < |y| ensures t[i + |x| + k] == y[k] {
      assert (x + y)[|x| + k] == y[k];
    }
  }

  /** `n` copies of `c`. */
  function Repeat(c: char, n: nat): (s: string)
    ensures |s| == n && forall k :: 0 <= k < n ==> s[k] == c
  {
    if n == 0 then [] else [c] + Repeat(c, n - 1)
  }

  /** The end of the longest run of characters of class `cls` starting at `i` (a greedy `cls*`). */
  function Span(t: string, i: nat, cls: CharClass): (j: nat)
    requires i <= |t|
    ensures i <= j <= |t|
    ensures j == |t| || !InClass(t[j], cls)
    decreases |t| - i
  {
    if i < |t| && InClass(t[i], cls) then Span(t, i + 1, cls) else i
  }

  /** Every character of the run Span finds is of class `cls`. */
  lemma {:induction false} SpanAll(t: string, i: nat, cls: CharClass)
    requires i <= |t|
    ensures forall k :: i <= k < Span(t, i, cls) ==> InClass(t[k], cls)
    decreases |t| - i
  {
    if i < |t| && InClass(t[i], cls) {
      SpanAll(t, i + 1, cls);
    }
  }

  /** The run Span finds, as a string: every character of it is of class `cls`. */
  lemma {:induction false} SpanRun(t: string, i: nat, cls: CharClass)
    requires i <= |t|
    ensures AllIn(t[i..Span(t, i, cls)], cls)
  {
    SpanAll(t, i, cls);
    var j := Span(t, i, cls);
    forall k | 0 <= k < j - i ensures InClass(t[i..j][k], cls) {
      assert t[i..j][k] == t[i + k];
    }
  }

  /** The first line break at or after `i`, or the end of the text: where `.*` starting at `i` stops. */
  function LineEnd(t: string, i: nat): (j: nat)
    requires i <= |t|
    ensures i <= j <= |t|
    ensures '\n' !in t[i..j]
    ensures j == |t| || t[j] == '\n'
    decreases |t| - i
  {
    if i < |t| && t[i] != '\n' then LineEnd(t, i + 1) else i
  }

  /** Trailing whitespace of `t[lo..hi]` cut off: where the lazy `(.+?)` before `\s*$` stops. */
  function TrimEnd(t: string, lo: nat, hi: nat): (j: nat)
    requires lo <= hi <= |t|
    ensures lo <= j <= hi && AllSpace(t[j..hi])
    ensures j == lo || !IsSpace(t[j - 1])
    decreases hi - lo
  {
    if lo < hi && IsSpace(t[hi - 1]) then
      var j := TrimEnd(t, lo, hi - 1);
      assert t[j..hi] == t[j..hi - 1] + [t[hi - 1]];
      j
    else hi
  }

  /** The first occurrence of `c` in `s`. */
  function IndexOf(s: string, c: char): (r: Option<nat>)
    ensures r.None? <==> c !in s
    ensures r.Some? ==> r.value < |s| && s[r.value] == c && c !in s[..r.value]
  {
    if |s| == 0 then None
    else if s[0] == c then Some(0)
    else
      var r := IndexOf(s[1..], c);
      if r.None? then None
      else
        assert s[..r.value + 1] == [s[0]] + s[1..][..r.value];
        Some(r.value + 1)
  }

  /** The first line of `t`, without its line break. */
  function FirstLine(t: string): (line: string)
    ensures StartsWith(t, line) && '\n' !in line
    ensures |line| == |t| || t[|line|] == '\n'
  {
    t[..LineEnd(t, 0)]
  }

  /** The last line break in `t[lo..hi]`. */
  function LastNewline(t: string, lo: nat, hi: nat): (r: Option<nat>)
    requires lo <= hi <= |t|
    ensures r.None? ==> '\n' !in t[lo..hi]
    ensures r.Some? ==> lo <= r.value < hi && t[r.value] == '\n' && '\n' !in t[r.value + 1..hi]
    decreases hi - lo
  {
    if lo == hi then None
    else if t[hi - 1] == '\n' then Some(hi - 1)
    else LastNewline(t, lo, hi - 1)
  }

  /**
   * Where a greedy `\s*$` (multi-line mode) starting at `i` stops: the longest
   * whitespace run is given back up to its last line break, or kept whole when
   * it reaches the end of the text. None when the rest of the line holds a
   * non-space character.
   */
  function BlankRunEnd(t: string, i: nat): (r: Option<nat>)
    requires i <= |t|
    ensures r.Some? <==> AllSpace(t[i..LineEnd(t, i)])
    ensures r.Some? ==> i <= r.value <= |t| && AllSpace(t[i..r.value])
    ensures r.Some? ==> r.value == |t| || t[r.value] == '\n'
    ensures r.Some? && r.value < |t| ==> !AllSpace(FirstLine(t[r.value + 1..]))
  {
    var run := Span(t, i, Space);
    SpanRun(t, i, Space);
    if run == |t| then
      SpaceLineEnd(t, i, run);
      Some(|t|)
    else
      var last := LastNewline(t, i, run);
      if last.None? then
        NoBreakInRun(t, i, run);
        None
      else
        assert t[last.value] == '\n';
        assert t[i..last.value] == t[i..run][..last.value - i];
        SpaceLineEnd(t, i, run);
        assert t[last.value + 1..][..run - last.value - 1] == t[last.value + 1..run];
        NonSpaceOnFirstLine(t[last.value + 1..], run - last.value - 1);
        Some(last.value)
  }

  /** `\s*$\n?` at `i`: BlankRunEnd, then the line break there if any. */
  function SkipBlankLines(t: string, i: nat): (r: Option<nat>)
    requires i <= |t|
    ensures r.Some? <==> AllSpace(t[i..LineEnd(t, i)])
    ensures r.Some? ==> i <= r.value <= |t| && AllSpace(t[i..r.value])
    ensures r.Some? && r.value < |t| ==> r.value > i && t[r.value - 1] == '\n'
    ensures r.Some? && r.value < |t| ==> !AllSpace(FirstLine(t[r.value..]))
  {
    match BlankRunEnd(t, i)
    case None => None
    case Some(j) =>
      if j == |t| then Some(j)
      else
        assert t[i..j + 1] == t[i..j] + [t[j]];
        Some(j + 1)
  }

  /** A maximal run is unique: a run of `cls` from `i` to `j` that cannot be extended is what Span finds. */
  lemma {:induction false} SpanIs(t: string, i: nat, j: nat, cls: CharClass)
    requires i <= j <= |t| && AllIn(t[i..j], cls)
    requires j == |t| || !InClass(t[j], cls)
    ensures Span(t, i, cls) == j
    decreases j - i
  {
    if i < j {
      assert t[i..j][0] == t[i];
      assert t[i + 1..j] == t[i..j][1..];
      SpanIs(t, i + 1, j, cls);
    }
  }

  /**
   * Where a greedy `\s*$\n\n` starting at `i` stops: after the last pair of
   * line breaks inside the whitespace run from `i`.
   */
  function BlankPairEnd(t: string, i: nat): (r: Option<nat>)
    requires i <= |t|
    ensures r.Some? ==> i + 2 <= r.value <= |t| && AllSpace(t[i..r.value]) && t[r.value - 2] == t[r.value - 1] == '\n'
  {
    var run := Span(t, i, Space);
    SpanRun(t, i, Space);
    match LastPair(t, i, run)
    case None => None
    case Some(q) =>
      assert t[i..q + 2] == t[i..run][..q + 2 - i];
      Some(q + 2)
  }

  /** The last `q` with `t[q..q+2]` two line breaks inside `t[lo..hi]`. */
  function LastPair(t: string, lo: nat, hi: nat): (r: Option<nat>)
    requires lo <= hi <= |t|
    ensures r.Some? ==> lo <= r.value && r.value + 2 <= hi && t[r.value] == '\n' && t[r.value + 1] == '\n'
    decreases hi
  {
    if hi < lo + 2 then None
    else if t[hi - 2] == '\n' && t[hi - 1] == '\n' then Some(hi - 2)
    else LastPair(t, lo, hi - 1)
  }

  /** Moving forward inside a line does not change where it ends. */
  lemma {:induction false} SameLine(t: string, i: nat, j: nat)
    requires i <= |t| && i <= j <= LineEnd(t, i)
    ensures LineEnd(t, j) == LineEnd(t, i)
    decreases j - i
  {
    if i < j {
      SameLine(t, i + 1, j);
    }
  }

  /** The first line of `a + b` is `a` when `a` has no line break and `b` starts a new line. */
  lemma {:induction false} FirstLineOf(a: string, b: string)
    requires '\n' !in a && (b == [] || b[0] == '\n')
    ensures FirstLine(a + b) == a
  {
    var t := a + b;
    forall k | 0 <= k < |a| ensures t[k] != '\n' { assert t[k] == a[k]; }
    if |a| > 0 {
      LineEndBeyond(t, 0, |a| - 1);
    }
    if |b| > 0 {
      LineEndAtMost(t, 0, |a|);
    }
  }

  /** A leading run of `#` is that many copies of `#`. */
  lemma {:induction false} HashRun(t: string, n: nat)
    requires n <= |t| && AllIn(t[0..n], Hash)
    ensures t[..n] == Repeat('#', n)
  {
    var marks := Repeat('#', n);
    forall k | 0 <= k < n ensures t[..n][k] == marks[k] { assert t[0..n][k] == t[k]; }
  }

  /** No line break lies between `i` and any `j` up to the end of its line. */
  lemma {:induction false} NoBreakBefore(t: string, i: nat, j: nat)
    requires i <= |t| && i <= j <= LineEnd(t, i)
    ensures '\n' !in t[i..j]
  {
    var line := t[i..LineEnd(t, i)];
    forall k | i <= k < j ensures t[k] != '\n' {
      assert line[k - i] == t[k];
    }
  }

  // Helper lemmas for the scanners above.

  /** A line break at `k` bounds the line starting at `i`. */
  lemma {:induction false} LineEndAtMost(t: string, i: nat, k: nat)
    requires i <= k < |t| && t[k] == '\n'
    ensures LineEnd(t, i) <= k
    decreases k - i
  {
    if t[i] != '\n' {
      LineEndAtMost(t, i + 1, k);
    }
  }

  /** With no line break in `t[i..m+1]`, the line starting at `i` reaches past `m`. */
  lemma {:induction false} LineEndBeyond(t: string, i: nat, m: nat)
    requires i <= m < |t| && forall k :: i <= k <= m ==> t[k] != '\n'
    ensures LineEnd(t, i) > m
    decreases m - i
  {
    if i < m {
      LineEndBeyond(t, i + 1, m);
    }
  }

  lemma {:induction false} SpaceLineEnd(t: string, i: nat, run: nat)
    requires i <= run <= |t| && AllSpace(t[i..run])
    requires run == |t| || exists k :: i <= k < run && t[k] == '\n'
    ensures AllSpace(t[i..LineEnd(t, i)])
  {
    var e := LineEnd(t, i);
    if run < |t| {
      var k :| i <= k < run && t[k] == '\n';
      LineEndAtMost(t, i, k);
    }
    forall k | 0 <= k < e - i ensures IsSpace(t[i..e][k]) { assert t[i..run][k] == t[i + k]; }
  }

  lemma {:induction false} NoBreakInRun(t: string, i: nat, run: nat)
    requires i <= run < |t| && AllSpace(t[i..run]) && !IsSpace(t[run])
    requires '\n' !in t[i..run]
    ensures !AllSpace(t[i..LineEnd(t, i)])
  {
    forall k | i <= k <= run ensures t[k] != '\n' {
      if k < run { assert t[i..run][k - i] == t[k]; }
    }
    LineEndBeyond(t, i, run);
    assert t[i..LineEnd(t, i)][run - i] == t[run];
  }

  /** A non-space character with no line break before it lies on the first line. */
  lemma {:induction false} NonSpaceOnFirstLine(s: string, m: nat)
    requires m < |s| && !IsSpace(s[m]) && '\n' !in s[..m]
    ensures !AllSpace(FirstLine(s))
  {
    forall k | 0 <= k <= m ensures s[k] != '\n' {
      if k < m { assert s[..m][k] == s[k]; }
    }
    LineEndBeyond(s, 0, m);
    assert FirstLine(s)[m] == s[m];
  }

  /** The line starting at `i` ends at `j` when `t[i..j]` has no line break and one (or the end) follows. */
  lemma {:induction false} LineEndIs(t: string, i: nat, j: nat)
    requires i <= j <= |t| && '\n' !in t[i..j]
    requires j == |t| || t[j] == '\n'
    ensures LineEnd(t, i) == j
  {
    if j < |t| {
      LineEndAtMost(t, i, j);
    }
    if i < j {
      forall k | i <= k <= j - 1 ensures t[k] != '\n' { assert t[i..j][k - i] == t[k]; }
      LineEndBeyond(t, i, j - 1);
    }
  }

  /** `TrimEnd` stops right after the last non-space character of `t[lo..hi]`. */
  lemma {:induction false} TrimEndIs(t: string, lo: nat, hi: nat, j: nat)
    requires lo <= j <= hi <= |t| && AllSpace(t[j..hi])
    requires j == lo || !IsSpace(t[j - 1])
    ensures TrimEnd(t, lo, hi) == j
  {
  }

  /** A run of class `cls` reaching `m` makes the greedy span reach at least `m`. */
  lemma {:induction false} SpanAtLeast(t: string, i: nat, m: nat, cls: CharClass)
    requires i <= m <= |t| && AllIn(t[i..m], cls)
    ensures Span(t, i, cls) >= m
    decreases m - i
  {
    if i < m {
      assert t[i..m][0] == t[i];
      assert t[i + 1..m] == t[i..m][1..];
      SpanAtLeast(t, i + 1, m, cls);
    }
  }

  /** The pair LastPair finds is the last one: no pair of line breaks starts after it inside `t[lo..hi]`. */
  lemma {:induction false} LastPairIsLast(t: string, lo: nat, hi: nat, q: nat)
    requires lo <= hi <= |t| && LastPair(t, lo, hi).Some? && LastPair(t, lo, hi).value < q && q + 2 <= hi
    ensures !(t[q] == '\n' && t[q + 1] == '\n')
    decreases hi
  {
    if !(t[hi - 2] == '\n' && t[hi - 1] == '\n') && q + 2 < hi {
      LastPairIsLast(t, lo, hi - 1, q);
    }
  }

  /** A pair of line breaks inside `t[lo..hi]` is found by `LastPair`. */
  lemma {:induction false} LastPairFinds(t: string, lo: nat, hi: nat, q: nat)
    requires lo <= q && q + 2 <= hi <= |t| && t[q] == '\n' && t[q + 1] == '\n'
    ensures LastPair(t, lo, hi).Some?
    decreases hi
  {
    if !(t[hi - 2] == '\n' && t[hi - 1] == '\n') {
      LastPairFinds(t, lo, hi - 1, q);
    }
  }
}
