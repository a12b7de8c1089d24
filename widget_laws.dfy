/**
 * What read_widget (mdoc/parser.py:71-88) makes of a widget written in
 * canonical form: `@name(` then the parameters `key=literal` separated by `,`
 * and whitespace, then `)` alone at the end of its line. The dictionary it
 * returns binds every key to the value its literal was written from.
 */
module WidgetLaws {
  import opened Lexemes
  import opened Values
  import opened Widgets
  import opened Readers

  /** `key=literal`: one parameter written out. */
  function Entry(q: (string, string)): string {
    q.0 + "=" + q.1
  }

  /** The parameters one after another, each `,` followed by the whitespace `gap`. */
  function Join(qs: seq<(string, string)>, gap: string): string
    decreases |qs|
  {
    if |qs| == 0 then ""
    else if |qs| == 1 then Entry(qs[0])
    else Entry(qs[0]) + "," + gap + Join(qs[1..], gap)
  }

  /** The (key, literal) pairs in which the parameters `ps` are written. */
  function Pairs(ps: seq<(string, Value)>): seq<(string, string)> {
    seq(|ps|, k requires 0 <= k < |ps| => (ps[k].0, Literal(ps[k].1)))
  }

  /** Every key is a name and every value one read_value can produce. */
  predicate Written(ps: seq<(string, Value)>) {
    forall k :: 0 <= k < |ps| ==> IsName(ps[k].0) && WellFormed(ps[k].1)
  }

  /** No string value follows another: on a single line, a second one would merge with the first. */
  predicate OneString(ps: seq<(string, Value)>) {
    forall j, k :: 0 <= j < k < |ps| && ps[j].1.Str? ==> !ps[k].1.Str?
  }

  /**
   * The written list `qs` lies in `t` from `i` to `close`: the whitespace
   * `lead`, the first key, `=` and its literal, then either `tail` up to
   * `close` or `,` and the rest of the list, led by `gap`.
   */
  predicate ListAt(t: string, i: nat, close: nat, lead: string, qs: seq<(string, string)>, gap: string, tail: string)
    decreases |qs|
  {
    |qs| > 0 &&
    var a := i + |lead|;
    var b := a + |qs[0].0|;
    var e := b + 1 + |qs[0].1|;
    e <= close <= |t| && At(t, i, lead) && At(t, a, qs[0].0) && t[b] == '=' && At(t, b + 1, qs[0].1) &&
    if |qs| == 1 then e + |tail| == close && At(t, e, tail)
    else e < close && t[e] == ',' && ListAt(t, e + 1, close, gap, qs[1..], gap, tail)
  }

  /** A written list, placed in `t`, lies there entry by entry. */
  lemma {:induction false} JoinListAt(t: string, i: nat, close: nat, lead: string, qs: seq<(string, string)>, gap: string, tail: string)
    requires |qs| > 0 && At(t, i, lead + Join(qs, gap) + tail) && close == i + |lead + Join(qs, gap) + tail|
    ensures ListAt(t, i, close, lead, qs, gap, tail)
    decreases |qs|
  {
    var e := FirstEntry(t, i, close, lead, qs, gap, tail);
    if |qs| > 1 {
      JoinListAt(t, e + 1, close, gap, qs[1..], gap, tail);
    }
  }

  /** Where the first entry of a written list sits, and what follows it up to `close`. */
  lemma {:induction false} FirstEntry(t: string, i: nat, close: nat, lead: string, qs: seq<(string, string)>, gap: string, tail: string)
    returns (e: nat)
    requires |qs| > 0 && At(t, i, lead + Join(qs, gap) + tail) && close == i + |lead + Join(qs, gap) + tail|
    ensures var a := i + |lead|; var b := a + |qs[0].0|;
      e == b + 1 + |qs[0].1| && e <= close <= |t| &&
      At(t, i, lead) && At(t, a, qs[0].0) && t[b] == '=' && At(t, b + 1, qs[0].1)
    ensures |qs| == 1 ==> e + |tail| == close && At(t, e, tail)
    ensures |qs| > 1 ==> (e < close && t[e] == ',' && At(t, e + 1, gap + Join(qs[1..], gap) + tail) &&
      close == e + 1 + |gap + Join(qs[1..], gap) + tail|)
  {
    var after := After(qs, gap, tail);
    JoinSplit(lead, qs, gap, tail);
    JoinAt(t, i, lead, qs, gap, tail);
    e := Pieces(t, i, lead, qs[0].0, qs[0].1, after);
    assert close == e + |after|;
    if |qs| > 1 {
      CommaThen(t, e, gap + Join(qs[1..], gap) + tail);
    }
  }

  /** `,` then `rest` placed at `e`. */
  lemma {:induction false} CommaThen(t: string, e: nat, rest: string)
    requires At(t, e, "," + rest)
    ensures e < |t| && t[e] == ',' && At(t, e + 1, rest)
  {
    AtSplit(t, e, ",", rest);
    assert t[e + 0] == ","[0];
  }

  /** What follows the first entry of a written list. */
  function After(qs: seq<(string, string)>, gap: string, tail: string): string
    requires |qs| > 0
  {
    if |qs| == 1 then tail else "," + (gap + Join(qs[1..], gap) + tail)
  }

  /** A written list lies in `t` as its first entry followed by the rest. */
  lemma {:induction false} JoinAt(t: string, i: nat, lead: string, qs: seq<(string, string)>, gap: string, tail: string)
    requires |qs| > 0 && At(t, i, lead + Join(qs, gap) + tail)
    ensures At(t, i, lead + qs[0].0 + "=" + qs[0].1 + After(qs, gap, tail))
  {
    JoinSplit(lead, qs, gap, tail);
  }

  /** A written list is its first entry followed by the rest. */
  lemma {:induction false} JoinSplit(lead: string, qs: seq<(string, string)>, gap: string, tail: string)
    requires |qs| > 0
    ensures lead + Join(qs, gap) + tail == lead + qs[0].0 + "=" + qs[0].1 + After(qs, gap, tail)
  {
    JoinHead(qs, gap, tail);
    Regroup(lead, Join(qs, gap), tail, qs[0].0, qs[0].1, After(qs, gap, tail));
  }

  lemma {:induction false} JoinHead(qs: seq<(string, string)>, gap: string, tail: string)
    requires |qs| > 0
    ensures Join(qs, gap) + tail == qs[0].0 + "=" + qs[0].1 + After(qs, gap, tail)
  {
    if |qs| > 1 {
      var more := gap + Join(qs[1..], gap);
      assert Join(qs, gap) == Entry(qs[0]) + "," + more;
      Associate(Entry(qs[0]) + ",", more, tail);
      Associate(Entry(qs[0]), ",", more + tail);
    }
  }

  lemma {:induction false} Associate(x: string, y: string, z: string)
    ensures x + y + z == x + (y + z)
  {
  }

  lemma {:induction false} Regroup(lead: string, body: string, tail: string, name: string, lit: string, after: string)
    requires body + tail == name + "=" + lit + after
    ensures lead + body + tail == lead + name + "=" + lit + after
  {
    assert lead + body + tail == lead + (body + tail);
    assert lead + (name + "=" + lit + after) == lead + name + "=" + lit + after;
  }

  /** Where `lead`, the name, `=`, the literal and what follows lie, when they lie one after the other from `i`. */
  lemma {:induction false} Pieces(t: string, i: nat, lead: string, name: string, lit: string, after: string) returns (e: nat)
    requires At(t, i, lead + name + "=" + lit + after)
    ensures var a := i + |lead|; var b := a + |name|;
      e == b + 1 + |lit| && e + |after| <= |t| &&
      At(t, i, lead) && At(t, a, name) && t[b] == '=' && At(t, b + 1, lit) && At(t, e, after)
  {
    e := i + |lead| + |name| + 1 + |lit|;
    AtSplit(t, i, lead + name + "=" + lit, after);
    AtSplit(t, i, lead + name + "=", lit);
    AtSplit(t, i, lead + name, "=");
    AtSplit(t, i, lead, name);
    assert t[i + |lead| + |name| + 0] == "="[0];
  }

  /** The first entry of the written parameters `ps`, and what follows it. */
  lemma {:induction false} ListHead(t: string, i: nat, close: nat, lead: string, ps: seq<(string, Value)>, gap: string, tail: string)
    returns (a: nat, b: nat, e: nat)
    requires |ps| > 0 && ListAt(t, i, close, lead, Pairs(ps), gap, tail)
    ensures a == i + |lead| && b == a + |ps[0].0| && e == b + 1 + |Literal(ps[0].1)| && e <= close <= |t|
    ensures t[i..a] == lead && t[a..b] == ps[0].0 && t[b] == '=' && t[b + 1..e] == Literal(ps[0].1)
    ensures |ps| == 1 ==> t[e..close] == tail
    ensures |ps| > 1 ==> e < close && t[e] == ','
  {
    PairsCons(ps);
    a := i + |lead|;
    b := a + |ps[0].0|;
    e := b + 1 + |Literal(ps[0].1)|;
    AtSlice(t, i, lead);
    AtSlice(t, a, ps[0].0);
    AtSlice(t, b + 1, Literal(ps[0].1));
    if |ps| == 1 {
      AtSlice(t, e, tail);
    }
  }

  /** The entries after the first of the written parameters `ps` form a list led by `gap`. */
  lemma {:induction false} ListTail(t: string, i: nat, close: nat, lead: string, ps: seq<(string, Value)>, gap: string, tail: string, e: nat)
    requires |ps| > 1 && ListAt(t, i, close, lead, Pairs(ps), gap, tail)
    requires e == i + |lead| + |ps[0].0| + 1 + |Literal(ps[0].1)|
    ensures ListAt(t, e + 1, close, gap, Pairs(ps[1..]), gap, tail)
  {
    PairsCons(ps);
  }

  lemma {:induction false} PairsCons(ps: seq<(string, Value)>)
    requires |ps| > 0
    ensures Pairs(ps)[0] == (ps[0].0, Literal(ps[0].1)) && Pairs(ps)[1..] == Pairs(ps[1..])
    ensures Pairs(ps) == [(ps[0].0, Literal(ps[0].1))] + Pairs(ps[1..])
    ensures |ps| == 1 ==> Pairs(ps) == [(ps[0].0, Literal(ps[0].1))]
  {
    assert Pairs(ps[1..]) == Pairs(ps)[1..];
    assert Pairs(ps) == [Pairs(ps)[0]] + Pairs(ps)[1..];
  }

  /** `"` belongs to none of the character classes. */
  lemma {:induction false} ClassNoQuote(s: string, cls: CharClass)
    requires AllIn(s, cls)
    ensures '"' !in s
  {
    forall k | 0 <= k < |s| ensures s[k] != '"' {
      assert InClass(s[k], cls);
    }
  }

  /** Only a string literal holds a `"`. */
  lemma {:induction false} NoQuoteLiteral(v: Value)
    requires WellFormed(v) && !v.Str?
    ensures '"' !in Literal(v)
  {
    match v
    case Float(negative, whole, fraction) =>
      ClassNoQuote(whole, Digit);
      ClassNoQuote(fraction, Digit);
      assert Literal(v) == (if negative then "-" else "") + whole + "." + fraction;
    case Integer(n) =>
      var ds := Decimal(if n < 0 then -n else n);
      ClassNoQuote(ds, Digit);
      assert Literal(v) == (if n < 0 then "-" else "") + ds;
    case Boolean(_) =>
    case Identifier(name) =>
      ClassNoQuote(name, NameChar);
      assert Literal(v) == "$" + name;
  }

  /** Without string values, no written key or literal holds a `"`. */
  lemma {:induction false} PairsNoQuote(ps: seq<(string, Value)>)
    requires Written(ps) && forall k :: 0 <= k < |ps| ==> !ps[k].1.Str?
    ensures forall k :: 0 <= k < |Pairs(ps)| ==> '"' !in Pairs(ps)[k].0 && '"' !in Pairs(ps)[k].1
  {
    forall k | 0 <= k < |ps| ensures '"' !in Pairs(ps)[k].0 && '"' !in Pairs(ps)[k].1 {
      ClassNoQuote(ps[k].0, NameChar);
      NoQuoteLiteral(ps[k].1);
    }
  }

  /** A list whose keys and literals hold no `"`, with whitespace around and between its entries, holds none. */
  lemma {:induction false} ListNoQuote(t: string, i: nat, close: nat, lead: string, qs: seq<(string, string)>, gap: string, tail: string)
    requires ListAt(t, i, close, lead, qs, gap, tail) && AllSpace(lead) && AllSpace(gap) && AllSpace(tail)
    requires forall k :: 0 <= k < |qs| ==> '"' !in qs[k].0 && '"' !in qs[k].1
    ensures forall m :: i <= m < close ==> t[m] != '"'
    decreases |qs|
  {
    var a := i + |lead|;
    var b := a + |qs[0].0|;
    var e := b + 1 + |qs[0].1|;
    if |qs| > 1 {
      assert forall k :: 0 <= k < |qs[1..]| ==> '"' !in qs[1..][k].0 && '"' !in qs[1..][k].1 by {
        forall k | 0 <= k < |qs[1..]| ensures '"' !in qs[1..][k].0 && '"' !in qs[1..][k].1 {
          assert qs[1..][k] == qs[k + 1];
        }
      }
      ListNoQuote(t, e + 1, close, gap, qs[1..], gap, tail);
    }
    forall m | i <= m < close ensures t[m] != '"' {
      if m < a {
        assert t[i + (m - i)] == lead[m - i] && InClass(lead[m - i], Space);
      } else if m < b {
        assert t[a + (m - a)] == qs[0].0[m - a];
      } else if b < m < e {
        assert t[b + 1 + (m - b - 1)] == qs[0].1[m - b - 1];
      } else if e <= m && |qs| == 1 {
        assert t[e + (m - e)] == tail[m - e] && InClass(tail[m - e], Space);
      }
    }
  }

  /**
   * After a string value nothing up to the end of its line is a `"`, when
   * nothing up to `close` is one and nothing on the line from `close` is one.
   */
  lemma {:induction false} LineRest(t: string, i: nat, e: nat, close: nat)
    requires i <= e <= close < |t|
    requires forall m :: e <= m < close ==> t[m] != '"'
    requires forall m :: close <= m < LineEnd(t, close) ==> t[m] != '"'
    ensures forall m :: e <= m < LineEnd(t, i) ==> t[m] != '"'
  {
    forall m | close <= m < LineEnd(t, i) ensures t[m] != '"' {
      forall k | close <= k <= m ensures t[k] != '\n' {
        assert t[k] == t[i..LineEnd(t, i)][k - i];
      }
      LineEndBeyond(t, close, m);
    }
  }

  /**
   * A string value as the first entry of a list: no `"` follows it on its
   * line, since the line breaks in `gap` or no later value is a string.
   */
  lemma {:induction false} StringRest(t: string, i: nat, close: nat, lead: string, ps: seq<(string, Value)>, gap: string, tail: string, b: nat, e: nat)
    requires |ps| > 0 && ps[0].1.Str? && Written(ps) && AllSpace(gap) && AllSpace(tail)
    requires '\n' in gap || OneString(ps)
    requires close < |t| && ListAt(t, i, close, lead, Pairs(ps), gap, tail)
    requires forall m :: close <= m < LineEnd(t, close) ==> t[m] != '"'
    requires b == i + |lead| + |ps[0].0| && e == b + 1 + |Literal(ps[0].1)|
    ensures forall m :: e <= m < LineEnd(t, b + 2) ==> t[m] != '"'
  {
    PairsCons(ps);
    ListFirst(t, i, close, lead, Pairs(ps), gap, tail, e);
    QuoteFreeAfter(t, b + 2, e, close, ps, gap, tail);
  }

  /** What a list placed at `i` holds after its first entry, which ends at `e`. */
  lemma {:induction false} ListFirst(t: string, i: nat, close: nat, lead: string, qs: seq<(string, string)>, gap: string, tail: string, e: nat)
    requires |qs| > 0 && ListAt(t, i, close, lead, qs, gap, tail)
    requires e == i + |lead| + |qs[0].0| + 1 + |qs[0].1|
    ensures e <= close <= |t|
    ensures |qs| == 1 ==> e + |tail| == close && At(t, e, tail)
    ensures |qs| > 1 ==> e < close && t[e] == ',' && ListAt(t, e + 1, close, gap, qs[1..], gap, tail)
  {
  }

  lemma {:induction false} QuoteFreeAfter(t: string, s: nat, e: nat, close: nat, ps: seq<(string, Value)>, gap: string, tail: string)
    requires |ps| > 0 && Written(ps) && AllSpace(gap) && AllSpace(tail)
    requires ps[0].1.Str? && ('\n' in gap || OneString(ps))
    requires s <= e <= close < |t|
    requires |ps| == 1 ==> e + |tail| == close && At(t, e, tail)
    requires |ps| > 1 ==> e < close && t[e] == ',' && ListAt(t, e + 1, close, gap, Pairs(ps[1..]), gap, tail)
    requires forall m :: close <= m < LineEnd(t, close) ==> t[m] != '"'
    ensures forall m :: e <= m < LineEnd(t, s) ==> t[m] != '"'
  {
    if |ps| > 1 && '\n' in gap {
      BreakInGap(t, s, e, close, gap);
    } else {
      if |ps| > 1 {
        RestNoQuote(t, e, close, ps, gap, tail);
      } else {
        forall m | e <= m < close ensures t[m] != '"' {
          assert t[e + (m - e)] == tail[m - e] && InClass(tail[m - e], Space);
        }
      }
      LineRest(t, s, e, close);
    }
  }

  /** After a string value, `,` and a list without string values hold no `"`. */
  lemma {:induction false} RestNoQuote(t: string, e: nat, close: nat, ps: seq<(string, Value)>, gap: string, tail: string)
    requires |ps| > 1 && Written(ps) && OneString(ps) && ps[0].1.Str? && AllSpace(gap) && AllSpace(tail)
    requires e < close <= |t| && t[e] == ',' && ListAt(t, e + 1, close, gap, Pairs(ps[1..]), gap, tail)
    ensures forall m :: e <= m < close ==> t[m] != '"'
  {
    PlainAfterString(ps);
    PairsNoQuote(ps[1..]);
    CommaListNoQuote(t, e, close, gap, Pairs(ps[1..]), tail);
  }

  /** `,` and a list whose keys and literals hold no `"`. */
  lemma {:induction false} CommaListNoQuote(t: string, e: nat, close: nat, gap: string, qs: seq<(string, string)>, tail: string)
    requires e < close <= |t| && t[e] == ',' && ListAt(t, e + 1, close, gap, qs, gap, tail) && AllSpace(gap) && AllSpace(tail)
    requires forall k :: 0 <= k < |qs| ==> '"' !in qs[k].0 && '"' !in qs[k].1
    ensures forall m :: e <= m < close ==> t[m] != '"'
  {
    ListNoQuote(t, e + 1, close, gap, qs, gap, tail);
  }

  /** The parameters after a string value hold no string value. */
  lemma {:induction false} PlainAfterString(ps: seq<(string, Value)>)
    requires |ps| > 1 && Written(ps) && OneString(ps) && ps[0].1.Str?
    ensures Written(ps[1..]) && forall k :: 0 <= k < |ps[1..]| ==> !ps[1..][k].1.Str?
  {
    forall k | 0 <= k < |ps[1..]| ensures IsName(ps[1..][k].0) && WellFormed(ps[1..][k].1) && !ps[1..][k].1.Str? {
      assert ps[1..][k] == ps[k + 1];
    }
  }

  /** `,` then whitespace holding a line break: the line ends inside the whitespace. */
  lemma {:induction false} BreakInGap(t: string, s: nat, e: nat, close: nat, gap: string)
    requires s <= e < close <= |t| && e + 1 + |gap| <= close && t[e] == ',' && At(t, e + 1, gap)
    requires AllSpace(gap) && '\n' in gap
    ensures forall m :: e <= m < LineEnd(t, s) ==> t[m] != '"'
  {
    var k :| 0 <= k < |gap| && gap[k] == '\n';
    assert t[e + 1 + k] == gap[k];
    LineEndAtMost(t, s, e + 1 + k);
    forall m | e < m < e + 1 + k ensures t[m] != '"' {
      assert t[m] == gap[m - e - 1];
      assert InClass(gap[m - e - 1], Space);
    }
  }

  /**
   * A written parameter list at `i`, then `)` and a blank rest of line: the
   * recognizer collects exactly the written pairs, in order.
   */
  lemma {:induction false} ParamsAt(t: string, i: nat, lead: string, ps: seq<(string, Value)>, gap: string, tail: string, close: nat)
    requires |ps| > 0 && Written(ps) && AllSpace(lead) && AllSpace(gap) && AllSpace(tail)
    requires '\n' in gap || OneString(ps)
    requires close < |t| && ListAt(t, i, close, lead, Pairs(ps), gap, tail)
    requires t[close] == ')' && BlankRunEnd(t, close + 1).Some?
    requires forall m :: close <= m < LineEnd(t, close) ==> t[m] != '"'
    ensures Param(t, i) == Some(Args(Pairs(ps), BlankRunEnd(t, close + 1).value))
    decreases |ps|, 1
  {
    var e := i + |lead| + |ps[0].0| + 1 + |Literal(ps[0].1)|;
    if |ps| > 1 {
      ListTail(t, i, close, lead, ps, gap, tail, e);
      TailParams(t, e, ps, gap, tail, close);
    }
    HeadParam(t, i, lead, ps, gap, tail, close, e);
  }

  /** The entries after the first of a written list, led by `gap` after the `,` at `e`, are read as the pairs after the first. */
  lemma {:induction false} TailParams(t: string, e: nat, ps: seq<(string, Value)>, gap: string, tail: string, close: nat)
    requires |ps| > 1 && Written(ps) && AllSpace(gap) && AllSpace(tail)
    requires '\n' in gap || OneString(ps)
    requires close < |t| && ListAt(t, e + 1, close, gap, Pairs(ps[1..]), gap, tail)
    requires t[close] == ')' && BlankRunEnd(t, close + 1).Some?
    requires forall m :: close <= m < LineEnd(t, close) ==> t[m] != '"'
    ensures e + 1 <= |t| && Param(t, e + 1) == Some(Args(Pairs(ps[1..]), BlankRunEnd(t, close + 1).value))
    decreases |ps|, 0
  {
    RestWritten(ps, gap);
    ParamsAt(t, e + 1, gap, ps[1..], gap, tail, close);
  }

  /** With the pairs after it read, the first entry is read in front of them. */
  lemma {:induction false} HeadParam(t: string, i: nat, lead: string, ps: seq<(string, Value)>, gap: string, tail: string, close: nat, e: nat)
    requires |ps| > 0 && Written(ps) && AllSpace(lead) && AllSpace(gap) && AllSpace(tail)
    requires '\n' in gap || OneString(ps)
    requires close < |t| && ListAt(t, i, close, lead, Pairs(ps), gap, tail)
    requires t[close] == ')' && BlankRunEnd(t, close + 1).Some?
    requires forall m :: close <= m < LineEnd(t, close) ==> t[m] != '"'
    requires e == i + |lead| + |ps[0].0| + 1 + |Literal(ps[0].1)|
    requires |ps| > 1 ==> e + 1 <= |t| && Param(t, e + 1) == Some(Args(Pairs(ps[1..]), BlankRunEnd(t, close + 1).value))
    ensures Param(t, i) == Some(Args(Pairs(ps), BlankRunEnd(t, close + 1).value))
  {
    var a, b, _ := ListHead(t, i, close, lead, ps, gap, tail);
    if ps[0].1.Str? {
      StringRest(t, i, close, lead, ps, gap, tail, b, e);
    }
    FirstParam(t, i, a, b, e, close, lead, ps, tail);
  }

  /** The first entry of a written list is read as its name and literal, followed by the pairs read after it. */
  lemma {:induction false} FirstParam(t: string, i: nat, a: nat, b: nat, e: nat, close: nat, lead: string, ps: seq<(string, Value)>, tail: string)
    requires |ps| > 0 && IsName(ps[0].0) && WellFormed(ps[0].1) && AllSpace(lead) && AllSpace(tail)
    requires a == i + |lead| && b == a + |ps[0].0| && e == b + 1 + |Literal(ps[0].1)| && e <= close < |t|
    requires t[i..a] == lead && t[a..b] == ps[0].0 && t[b] == '=' && t[b + 1..e] == Literal(ps[0].1)
    requires t[close] == ')' && BlankRunEnd(t, close + 1).Some?
    requires |ps| == 1 ==> t[e..close] == tail
    requires |ps| > 1 ==> e < close && t[e] == ',' && Param(t, e + 1) == Some(Args(Pairs(ps[1..]), BlankRunEnd(t, close + 1).value))
    requires ps[0].1.Str? ==> forall m :: e <= m < LineEnd(t, b + 2) ==> t[m] != '"'
    ensures Param(t, i) == Some(Args(Pairs(ps), BlankRunEnd(t, close + 1).value))
  {
    PairsCons(ps);
    EntryParam(t, i, a, b, e, close, lead, ps[0].0, ps[0].1, tail, |ps| == 1, if |ps| == 1 then [] else Pairs(ps[1..]));
  }

  /**
   * An entry `lead name=literal` at `i`, with the name at `a..b` and the
   * literal ending at `e`, then either `tail)` or `,` and the pairs `rest`:
   * the pair is read first.
   */
  lemma {:induction false} EntryParam(t: string, i: nat, a: nat, b: nat, e: nat, close: nat, lead: string, name: string, v: Value,
                                      tail: string, last: bool, rest: seq<(string, string)>)
    requires WellFormed(v) && IsName(name) && AllSpace(lead) && AllSpace(tail)
    requires a == i + |lead| && b == a + |name| && e == b + 1 + |Literal(v)| && e <= close < |t|
    requires t[i..a] == lead && t[a..b] == name && t[b] == '=' && t[b + 1..e] == Literal(v)
    requires t[close] == ')' && BlankRunEnd(t, close + 1).Some?
    requires if last then t[e..close] == tail && rest == []
             else e < close && t[e] == ',' && Param(t, e + 1) == Some(Args(rest, BlankRunEnd(t, close + 1).value))
    requires v.Str? ==> forall m :: e <= m < LineEnd(t, b + 2) ==> t[m] != '"'
    ensures Param(t, i) == Some(Args([(name, Literal(v))] + rest, BlankRunEnd(t, close + 1).value))
  {
    EntryEnd(t, e, close, tail, last, rest);
    OneParam(t, i, a, b, b + 1, e, v);
  }

  /** After an entry come either whitespace and `)`, or `,` and the pairs `rest`: a delimiter, then those pairs. */
  lemma {:induction false} EntryEnd(t: string, e: nat, close: nat, tail: string, last: bool, rest: seq<(string, string)>)
    requires e <= close < |t| && t[close] == ')' && BlankRunEnd(t, close + 1).Some? && AllSpace(tail)
    requires if last then t[e..close] == tail && rest == []
             else e < close && t[e] == ',' && Param(t, e + 1) == Some(Args(rest, BlankRunEnd(t, close + 1).value))
    ensures Delimiter(t[e]) && AfterValue(t, e) == Some(Args(rest, BlankRunEnd(t, close + 1).value))
  {
    if last {
      CloseAfter(t, e, close);
    } else {
      CommaAfter(t, e, e);
    }
    EntryDelimited(t, e, close, tail, last);
  }

  /** What ends an entry, whitespace up to `)` or `,`, is a delimiter. */
  lemma {:induction false} EntryDelimited(t: string, e: nat, close: nat, tail: string, last: bool)
    requires e <= close < |t| && t[close] == ')' && AllSpace(tail)
    requires if last then t[e..close] == tail else e < close && t[e] == ','
    ensures Delimiter(t[e])
  {
    if last && e < close {
      assert t[e] == t[e..close][0] && InClass(tail[0], Space);
    }
  }

  /** The parameters after the first are written too. */
  lemma {:induction false} RestWritten(ps: seq<(string, Value)>, gap: string)
    requires |ps| > 0 && Written(ps) && ('\n' in gap || OneString(ps))
    ensures Written(ps[1..]) && ('\n' in gap || OneString(ps[1..]))
  {
    forall k | 0 <= k < |ps[1..]| ensures IsName(ps[1..][k].0) && WellFormed(ps[1..][k].1) {
      assert ps[1..][k] == ps[k + 1];
    }
    if '\n' !in gap {
      forall j, k | 0 <= j < k < |ps[1..]| && ps[1..][j].1.Str? ensures !ps[1..][k].1.Str? {
        assert ps[1..][j] == ps[j + 1] && ps[1..][k] == ps[k + 1];
      }
    }
  }

  /**
   * One written parameter `name=literal` after whitespace at `i`, with the
   * name at `a..b` and the literal at `b + 1..e`, and a continuation after it:
   * it is the first pair of the list.
   */
  lemma {:induction false} OneParam(t: string, i: nat, a: nat, b: nat, d: nat, e: nat, v: Value)
    requires WellFormed(v) && i <= a < b && d == b + 1 && e == d + |Literal(v)| && e < |t|
    requires AllSpace(t[i..a]) && IsName(t[a..b]) && t[b] == '=' && t[d..e] == Literal(v) && Delimiter(t[e])
    requires v.Str? ==> forall m :: e <= m < LineEnd(t, d + 1) ==> t[m] != '"'
    requires AfterValue(t, e).Some?
    ensures Param(t, i) == Some(Args([(t[a..b], Literal(v))] + AfterValue(t, e).value.params, AfterValue(t, e).value.end))
  {
    ParamAt(t, i, a, b, b);
    LiteralValue(t, a, b, d, e, v);
  }

  /** A canonical literal right after `=`, with a continuation after it, is the value of the first pair. */
  lemma {:induction false} LiteralValue(t: string, a: nat, b: nat, d: nat, e: nat, v: Value)
    requires WellFormed(v) && a <= b < d && e == d + |Literal(v)| && e < |t|
    requires t[d..e] == Literal(v) && Delimiter(t[e])
    requires v.Str? ==> forall m :: e <= m < LineEnd(t, d + 1) ==> t[m] != '"'
    requires AfterValue(t, e).Some?
    ensures ParamValue(t, a, b, d) == Some(Args([(t[a..b], Literal(v))] + AfterValue(t, e).value.params, AfterValue(t, e).value.end))
  {
    LiteralFirst(t, d, e, v);
    LiteralEnd(t, a, b, d, e, v);
    ValueAt(t, a, b, d, d);
  }

  /** A canonical literal does not start with whitespace. */
  lemma {:induction false} LiteralFirst(t: string, d: nat, e: nat, v: Value)
    requires WellFormed(v) && d <= e <= |t| && t[d..e] == Literal(v)
    ensures d < e && !IsSpace(t[d])
  {
    LiteralShape(v);
    assert t[d] == t[d..e][0];
  }

  /** Every written literal reads back as the value it was written from. */
  lemma {:induction false} PairsRead(ps: seq<(string, Value)>)
    requires Written(ps)
    ensures forall k :: 0 <= k < |Pairs(ps)| ==> ReadValue(Pairs(ps)[k].1) == Some(ps[k].1)
  {
    forall k | 0 <= k < |ps| ensures ReadValue(Pairs(ps)[k].1) == Some(ps[k].1) {
      ReadLiteral(ps[k].1);
    }
  }

  /** The dictionary read_widget builds from the written pairs. */
  function Dictionary(ps: seq<(string, Value)>): map<string, Value>
    requires Written(ps)
  {
    PairsRead(ps);
    Collect(Pairs(ps))
  }

  /** The dictionary binds each written key to the value it was written from; a repeated key keeps its last value. */
  lemma {:induction false} CollectPairs(ps: seq<(string, Value)>)
    requires Written(ps)
    ensures forall key :: key in Dictionary(ps) <==> exists k :: 0 <= k < |ps| && ps[k].0 == key
    ensures forall k :: 0 <= k < |ps| && (forall j :: k < j < |ps| ==> ps[j].0 != ps[k].0) ==>
              Dictionary(ps)[ps[k].0] == ps[k].1
  {
    PairsRead(ps);
    var m := Dictionary(ps);
    forall key ensures key in m <==> exists k :: 0 <= k < |ps| && ps[k].0 == key {
      if key in m {
        var k :| 0 <= k < |Pairs(ps)| && Pairs(ps)[k].0 == key;
        assert ps[k].0 == key;
      }
      if exists k :: 0 <= k < |ps| && ps[k].0 == key {
        var k :| 0 <= k < |ps| && ps[k].0 == key;
        assert Pairs(ps)[k].0 == key;
      }
    }
  }

  /**
   * A widget with written parameters: `@name(`, whitespace `first`, the list,
   * whitespace `tail`, `)` and spaces to the end of the line. read_widget
   * returns the name and the dictionary of the written pairs, and no body.
   */
  lemma {:induction false} WidgetRoundTrip(name: string, ps: seq<(string, Value)>, first: string, gap: string, tail: string,
                        pad: string, rest: string, offset: nat)
    requires IsName(name) && |ps| > 0 && Written(ps)
    requires AllSpace(first) && AllSpace(gap) && AllSpace(tail) && ('\n' in gap || OneString(ps))
    requires AllSpace(pad) && '\n' !in pad && (rest == [] || rest[0] == '\n')
    ensures var r := ReadWidget("@" + name + "(" + (first + Join(Pairs(ps), gap) + tail) + ")" + pad + rest, offset);
      r.Next? && r.token == Widget(name, Dictionary(ps), None)
  {
    var t, n, close := WidgetLayout(name, first + Join(Pairs(ps), gap) + tail, pad, rest);
    WidgetAt(t, offset, n, close, first, ps, gap, tail);
  }

  /** A written parameter list between `@name(` and `)` at the end of its line. */
  lemma {:induction false} WidgetAt(t: string, offset: nat, n: nat, close: nat, first: string, ps: seq<(string, Value)>, gap: string, tail: string)
    requires StartsWith(t, "@") && 1 < n < close < |t| && Span(t, 1, NameChar) == n && t[n] == '('
    requires t[close] == ')' && BlankRunEnd(t, close + 1).Some? && forall m :: close <= m < LineEnd(t, close) ==> t[m] != '"'
    requires |ps| > 0 && Written(ps) && AllSpace(first) && AllSpace(gap) && AllSpace(tail) && ('\n' in gap || OneString(ps))
    requires t[n + 1..close] == first + Join(Pairs(ps), gap) + tail
    ensures ReadWidget(t, offset).Next? && ReadWidget(t, offset).token == Widget(t[1..n], Dictionary(ps), None)
  {
    SliceAt(t, n + 1, close, first + Join(Pairs(ps), gap) + tail);
    JoinListAt(t, n + 1, close, first, Pairs(ps), gap, tail);
    ListArgs(t, n + 1, close, first, ps, gap, tail);
    var args := ReadWidgetAt(t, offset, n);
  }

  /** The argument list of a widget opens with the first written parameter, not with `)`. */
  lemma {:induction false} ListArgs(t: string, i: nat, close: nat, first: string, ps: seq<(string, Value)>, gap: string, tail: string)
    requires close < |t| && t[close] == ')' && BlankRunEnd(t, close + 1).Some? && forall m :: close <= m < LineEnd(t, close) ==> t[m] != '"'
    requires |ps| > 0 && Written(ps) && AllSpace(first) && AllSpace(gap) && AllSpace(tail) && ('\n' in gap || OneString(ps))
    requires ListAt(t, i, close, first, Pairs(ps), gap, tail)
    ensures WidgetArgs(t, i) == Some(Args(Pairs(ps), BlankRunEnd(t, close + 1).value))
  {
    ParamsAt(t, i, first, ps, gap, tail, close);
    var a := ListStart(t, i, close, first, ps, gap, tail);
    OpensWithParam(t, i, a);
  }

  lemma {:induction false} ListStart(t: string, i: nat, close: nat, first: string, ps: seq<(string, Value)>, gap: string, tail: string)
    returns (a: nat)
    requires |ps| > 0 && Written(ps) && AllSpace(first) && ListAt(t, i, close, first, Pairs(ps), gap, tail)
    ensures i <= a < |t| && AllSpace(t[i..a]) && IsNameChar(t[a])
  {
    var b, e;
    a, b, e := ListHead(t, i, close, first, ps, gap, tail);
    assert t[a] == t[a..b][0] && InClass(t[a..b][0], NameChar);
  }

  lemma {:induction false} OpensWithParam(t: string, i: nat, a: nat)
    requires i <= a < |t| && AllSpace(t[i..a]) && IsNameChar(t[a])
    ensures WidgetArgs(t, i) == Param(t, i)
  {
    SpanIs(t, i, a, Space);
  }

  /** `@name(` with only whitespace before `)`: a widget with no parameters. */
  lemma {:induction false} EmptyWidget(name: string, gap: string, pad: string, rest: string, offset: nat)
    requires IsName(name) && AllSpace(gap) && AllSpace(pad) && '\n' !in pad && (rest == [] || rest[0] == '\n')
    ensures var r := ReadWidget("@" + name + "(" + gap + ")" + pad + rest, offset);
      r.Next? && r.token == Widget(name, map[], None)
  {
    var t, n, close := WidgetLayout(name, gap, pad, rest);
    SpanIs(t, n + 1, close, Space);
    EmptyWidgetAt(t, offset, n, close);
  }

  lemma {:induction false} EmptyWidgetAt(t: string, offset: nat, n: nat, close: nat)
    requires StartsWith(t, "@") && 1 < n < close < |t| && Span(t, 1, NameChar) == n && t[n] == '('
    requires Span(t, n + 1, Space) == close && t[close] == ')' && BlankRunEnd(t, close + 1).Some?
    ensures ReadWidget(t, offset).Next? && ReadWidget(t, offset).token == Widget(t[1..n], map[], None)
  {
    EmptyArgs(t, n + 1, close);
    var args := ReadWidgetAt(t, offset, n);
  }

  /**
   * A parameter whose `=` is followed only by whitespace and `)`: none of the
   * value patterns matches at `)`, so WIDGET_INLINE_REGEXP fails and
   * read_widget raises (mdoc/parser.py:78-80).
   */
  lemma {:induction false} WidgetMissingValue(name: string, key: string, gap: string, rest: string, offset: nat)
    requires IsName(name) && IsName(key) && AllSpace(gap)
    ensures ReadWidget("@" + name + "(" + key + "=" + gap + ")" + rest, offset) == Fail(ParseError(BrokenWidget, offset))
  {
    var t := "@" + name + "(" + key + "=" + gap + ")" + rest;
    var n := 1 + |name|;
    var b := n + 1 + |key|;
    var d := b + 1 + |gap|;
    forall k | 0 <= k < |name| ensures t[1 + k] == name[k] {
    }
    forall k | 0 <= k < |key| ensures t[n + 1 + k] == key[k] {
    }
    forall k | 0 <= k < |gap| ensures t[b + 1 + k] == gap[k] {
    }
    assert t[0] == '@' && t[n] == '(' && t[b] == '=' && t[d] == ')';
    MissingValueAt(t, offset, n, b, d, name, key, gap);
  }

  lemma {:induction false} MissingValueAt(t: string, offset: nat, n: nat, b: nat, d: nat, name: string, key: string, gap: string)
    requires IsName(name) && IsName(key) && AllSpace(gap)
    requires n == 1 + |name| && b == n + 1 + |key| && d == b + 1 + |gap| && d < |t|
    requires t[0] == '@' && t[n] == '(' && t[b] == '=' && t[d] == ')'
    requires At(t, 1, name) && At(t, n + 1, key) && At(t, b + 1, gap)
    ensures ReadWidget(t, offset) == Fail(ParseError(BrokenWidget, offset))
  {
    MissingValueArgs(t, n, b, d, name, key, gap);
    NoValueAtClose(t, n + 1, b, d);
    assert StartsWith(t, "@") by { assert t[..1] == "@"; }
  }

  /** The runs of `@name(key=` and the whitespace after it: the list is decided by the value alternatives at `d`. */
  lemma {:induction false} MissingValueArgs(t: string, n: nat, b: nat, d: nat, name: string, key: string, gap: string)
    requires IsName(name) && IsName(key) && AllSpace(gap)
    requires n == 1 + |name| && b == n + 1 + |key| && d == b + 1 + |gap| && d < |t|
    requires t[0] == '@' && t[n] == '(' && t[b] == '=' && t[d] == ')'
    requires At(t, 1, name) && At(t, n + 1, key) && At(t, b + 1, gap)
    ensures Span(t, 1, NameChar) == n && WidgetArgs(t, n + 1) == TryValue(t, n + 1, b, d)
  {
    AtSlice(t, 1, name);
    SpanIs(t, 1, n, NameChar);
    MissingValueList(t, n, b, d, key, gap);
  }

  lemma {:induction false} MissingValueList(t: string, n: nat, b: nat, d: nat, key: string, gap: string)
    requires IsName(key) && AllSpace(gap)
    requires b == n + 1 + |key| && d == b + 1 + |gap| && d < |t|
    requires t[b] == '=' && t[d] == ')'
    requires At(t, n + 1, key) && At(t, b + 1, gap)
    ensures WidgetArgs(t, n + 1) == TryValue(t, n + 1, b, d)
  {
    AtSlice(t, n + 1, key);
    AtSlice(t, b + 1, gap);
    assert t[n + 1] == key[0];
    KeyThenClose(t, n + 1, b, d);
  }

  /** `key=`, whitespace and `)`: the list is decided by the value alternatives at the `)`. */
  lemma {:induction false} KeyThenClose(t: string, i: nat, b: nat, d: nat)
    requires i < b < d < |t| && IsName(t[i..b]) && IsNameChar(t[i]) && AllSpace(t[b + 1..d])
    requires t[b] == '=' && t[d] == ')'
    ensures WidgetArgs(t, i) == TryValue(t, i, b, d)
  {
    OpensWithParam(t, i, i);
    ParamAt(t, i, i, b, b);
    ValueAt(t, i, b, b + 1, d);
  }

  /** No value pattern matches at a `)`. */
  lemma {:induction false} NoValueAtClose(t: string, a: nat, b: nat, d: nat)
    requires a <= b <= d < |t| && t[d] == ')'
    ensures TryValue(t, a, b, d).None?
  {
    assert Span(t, d, Digit) == d;
    assert !StartsWith(t[d..], "true") && !StartsWith(t[d..], "false") by { assert t[d..][0] == ')'; }
  }

  /** Where the parts of a widget line sit, and what the name run and the line end are. */
  lemma {:induction false} WidgetLayout(name: string, inner: string, pad: string, rest: string) returns (t: string, n: nat, close: nat)
    requires IsName(name) && AllSpace(pad) && '\n' !in pad && (rest == [] || rest[0] == '\n')
    ensures t == "@" + name + "(" + inner + ")" + pad + rest
    ensures n == 1 + |name| && close == n + 1 + |inner| && close < |t| && t[1..n] == name
    ensures StartsWith(t, "@") && Span(t, 1, NameChar) == n && t[n] == '(' && t[n + 1..close] == inner && t[close] == ')'
    ensures BlankRunEnd(t, close + 1).Some? && forall m :: close <= m < LineEnd(t, close) ==> t[m] != '"'
  {
    t := "@" + name + "(" + inner + ")" + pad + rest;
    n := 1 + |name|;
    close := n + 1 + |inner|;
    forall k | 0 <= k < |name| ensures t[1 + k] == name[k] {
    }
    forall k | 0 <= k < |inner| ensures t[n + 1 + k] == inner[k] {
    }
    forall k | 0 <= k < |pad| ensures t[close + 1 + k] == pad[k] {
    }
    forall k | 0 <= k < |rest| ensures t[close + 1 + |pad| + k] == rest[k] {
    }
    assert t[0] == '@' && t[n] == '(' && t[close] == ')';
    LineParts(t, name, inner, pad, rest, n, close);
  }

  /** The facts about a widget line that follow from where its parts lie. */
  lemma {:induction false} LineParts(t: string, name: string, inner: string, pad: string, rest: string, n: nat, close: nat)
    requires IsName(name) && AllSpace(pad) && '\n' !in pad && (rest == [] || rest[0] == '\n')
    requires n == 1 + |name| && close == n + 1 + |inner| && |t| == close + 1 + |pad| + |rest|
    requires t[0] == '@' && t[n] == '(' && t[close] == ')'
    requires At(t, 1, name) && At(t, n + 1, inner) && At(t, close + 1, pad) && At(t, close + 1 + |pad|, rest)
    ensures close < |t| && t[1..n] == name
    ensures StartsWith(t, "@") && Span(t, 1, NameChar) == n && t[n + 1..close] == inner
    ensures BlankRunEnd(t, close + 1).Some? && forall m :: close <= m < LineEnd(t, close) ==> t[m] != '"'
  {
    var line := close + 1 + |pad|;
    AtSlice(t, 1, name);
    AtSlice(t, n + 1, inner);
    AtSlice(t, close + 1, pad);
    AtSlice(t, line, rest);
    SpanIs(t, 1, n, NameChar);
    LineEndIs(t, close + 1, line);
    LineEndIs(t, close, line);
    forall m | close <= m < line ensures t[m] != '"' {
      if m > close { assert t[close + 1 + (m - close - 1)] == pad[m - close - 1]; }
    }
    assert t[..1] == "@";
  }
}
