/** What the fewest-literals choice of the inline parser means on particular
    shapes of input, stated without reference to how the search is written. */
module InlineProps {
  import opened Common
  import Attributes
  import Verbatim
  import opened Inline
  import opened InlineParse

  // ---------------------------------------------------------------- plain text

  /** A character that is an item of its own: not a newline, a delimiter or a
      backtick. */
  predicate IsPlain(c: char) {
    c != '\n' && !IsDelim(c) && c != '`'
  }

  /** One text item per character. */
  function Texts(w: string): (r: seq<Node>)
    ensures |r| == |w|
    ensures forall m :: 0 <= m < |w| ==> r[m] == Text(w[m])
  {
    if w == [] then [] else [Text(w[0])] + Texts(w[1..])
  }

  lemma {:induction false} TextsLiterals(w: string)
    ensures LiteralsSeq(Texts(w)) == 0
  {
    if w != [] {
      TextsLiterals(w[1..]);
      LiteralsCons(Text(w[0]), Texts(w[1..]));
    }
  }

  /** A verbatim token starts with a backtick. */
  lemma MatchStart(s: string)
    ensures Verbatim.Match(s).Some? ==> s != [] && s[0] == '`'
  {
    if Verbatim.Match(s).Some? {
      Verbatim.MatchSound(s);
      var f := Verbatim.Match(s).value.0;
      assert s[0] == Verbatim.Ticks(f)[0];
    }
  }

  /** What the first item of a run says about the start of its text. */
  lemma RunHead(t: string, c: Option<char>, ns: seq<Node>, rest: string, first: bool)
    requires DerivesRun(t, c, ns, rest, first)
    ensures ns != [] && ns[0].VerbatimSpan? ==> t != [] && t[0] == '`'
    ensures ns != [] && ns[0].Delimited? ==> |t| >= 2 && t[1] != '\n'
  {
    MatchStart(t);
    if ns != [] && ns[0].Delimited? {
      var n := ns[0];
      var u := RenderSeq(ns[1..], rest);
      var close := [n.delim] + Attributes.RenderOptional(n.attrs, u);
      DerivesRunText(t[1..], Some(n.delim), n.children, close, true);
    }
  }

  /** A run at the end of the input or at a newline has no items. */
  lemma RunAtStop(t: string, c: Option<char>, ns: seq<Node>, rest: string, first: bool)
    requires DerivesRun(t, c, ns, rest, first)
    requires t == [] || t[0] == '\n'
    ensures ns == [] && rest == t
  {
    DerivesRunText(t, c, ns, rest, first);
  }

  /** Plain characters are derived one text item each, after which the run goes
      on as if they were not there. */
  lemma PlainRun(w: string, s: string, c: Option<char>, ns: seq<Node>, rest: string, first: bool)
    requires All(IsPlain, w) && (c.None? || IsDelim(c.value))
    requires DerivesRun(w + s, c, ns, rest, first)
    ensures |w| <= |ns| && ns[..|w|] == Texts(w)
    ensures DerivesRun(s, c, ns[|w|..], rest, first && w == [])
  {
    assert w[0..] == w && ns[0..] == ns;
    if w != [] {
      PlainAdvance(w, 0, s, c, ns, rest, first);
      PlainRest(w, s, c, ns, rest);
    }
    PlainDone(w, s, ns);
  }

  /** The loop of `PlainRun` once the first plain character is taken. */
  lemma PlainRest(w: string, s: string, c: Option<char>, ns: seq<Node>, rest: string)
    requires All(IsPlain, w) && (c.None? || IsDelim(c.value))
    requires 1 <= |w| && 1 <= |ns| && ns[0] == Text(w[0])
    requires DerivesRun(w[1..] + s, c, ns[1..], rest, false)
    ensures |w| <= |ns| && forall m :: 0 <= m < |w| ==> ns[m] == Text(w[m])
    ensures DerivesRun(w[|w|..] + s, c, ns[|w|..], rest, false)
  {
    var i := 1;
    while i < |w|
      invariant 1 <= i <= |w| && i <= |ns|
      invariant forall m :: 0 <= m < i ==> ns[m] == Text(w[m])
      invariant DerivesRun(w[i..] + s, c, ns[i..], rest, false)
    {
      PlainAdvance(w, i, s, c, ns, rest, false);
      i := i + 1;
    }
  }

  lemma PlainDone(w: string, s: string, ns: seq<Node>)
    requires |w| <= |ns| && forall m :: 0 <= m < |w| ==> ns[m] == Text(w[m])
    ensures w[|w|..] + s == s && ns[..|w|] == Texts(w)
  {
    assert w[|w|..] == [];
  }

  lemma PlainAdvance(w: string, i: nat, s: string, c: Option<char>, ns: seq<Node>, rest: string, first: bool)
    requires i < |w| && i <= |ns| && IsPlain(w[i]) && (c.None? || IsDelim(c.value))
    requires DerivesRun(w[i..] + s, c, ns[i..], rest, first)
    ensures i < |ns| && ns[i] == Text(w[i])
    ensures DerivesRun(w[i + 1..] + s, c, ns[i + 1..], rest, false)
  {
    TextsCons(w, i, s, []);
    PlainStep(w[i], w[i + 1..] + s, c, ns[i..], rest, first);
    assert ns[i..][1..] == ns[i + 1..];
  }

  /** The item of a derived run at a plain character is that character. */
  lemma PlainStep(x: char, s: string, c: Option<char>, ns: seq<Node>, rest: string, first: bool)
    requires IsPlain(x) && (c.None? || IsDelim(c.value))
    requires DerivesRun([x] + s, c, ns, rest, first)
    ensures ns != [] && ns[0] == Text(x) && DerivesRun(s, c, ns[1..], rest, false)
  {
    var t := [x] + s;
    assert t[0] == x && t[1..] == s;
    MatchStart(t);
  }

  /** Plain characters in front of a derived run are a derived run. */
  lemma TextsDerive(w: string, s: string, c: Option<char>, ns: seq<Node>, rest: string, first: bool)
    requires All(IsPlain, w) && (c.None? || IsDelim(c.value)) && (w != [] || !first)
    requires DerivesRun(s, c, ns, rest, false)
    ensures DerivesRun(w + s, c, Texts(w) + ns, rest, first)
  {
    var i := |w|;
    assert w[i..] + s == s && Texts(w[i..]) + ns == ns;
    while i > 0
      invariant 0 <= i <= |w|
      invariant DerivesRun(w[i..] + s, c, Texts(w[i..]) + ns, rest, i == 0 && first)
    {
      i := i - 1;
      TextStep(w[i], w[i + 1..] + s, c, Texts(w[i + 1..]) + ns, rest, i == 0 && first);
      TextsCons(w, i, s, ns);
    }
    assert w[0..] == w;
  }

  lemma TextsCons(w: string, i: nat, s: string, ns: seq<Node>)
    requires i < |w|
    ensures w[i..] + s == [w[i]] + (w[i + 1..] + s)
    ensures Texts(w[i..]) + ns == [Text(w[i])] + (Texts(w[i + 1..]) + ns)
  {
    assert w[i..] == [w[i]] + w[i + 1..];
    assert w[i..][1..] == w[i + 1..];
  }

  /** One plain character in front of a derived run. */
  lemma TextStep(x: char, s: string, c: Option<char>, ns: seq<Node>, rest: string, first: bool)
    requires IsPlain(x) && (c.None? || IsDelim(c.value))
    requires DerivesRun(s, c, ns, rest, false)
    ensures DerivesRun([x] + s, c, [Text(x)] + ns, rest, first)
  {
    var t := [x] + s;
    assert t[0] == x;
    MatchStart(t);
    DerivesRunText(s, c, ns, rest, false);
    assert ([Text(x)] + ns)[1..] == ns;
  }

  // ---------------------------------------------------------------- literals

  /** Fewest literals beats the nearest closer: in `dxdxdd` (`_a_a__`, say) the
      parser pairs all four delimiters, as `d x (d x d) d`, where pairing the first
      two would leave the last two literal. */
  lemma FewestLiterals(d: char, x: char)
    requires IsDelim(d) && IsPlain(x) && x != '{'
    ensures LiteralsSeq(ParseLine([d, x, d, x, d, d]).0) == 0
  {
    var inner := Delimited(d, [Text(x)], None);
    var outer := Delimited(d, [Text(x), inner], None);
    OuterDerives(d, x);
    LineOptimal([d, x, d, x, d, d], [outer], []);
    LiteralsCons(Text(x), []);
    LiteralsCons(Text(x), [inner]);
    LiteralsCons(inner, []);
    LiteralsCons(outer, []);
    assert [Text(x)] + [] == [Text(x)] && [inner] + [] == [inner] && [outer] + [] == [outer];
  }

  /** `dxd` followed by `d` is a span closed by its second delimiter. */
  lemma InnerDerives(d: char, x: char)
    requires IsDelim(d) && IsPlain(x)
    ensures Derives([d, x, d, d], Delimited(d, [Text(x)], None), [d])
    ensures Render(Delimited(d, [Text(x)], None), [d]) == [d, x, d, d]
  {
    var dd, xdd := [d, d], [x, d, d];
    assert Attributes.RenderOptional(None, [d]) == [d];
    MatchStart(xdd);
    assert DerivesRun(dd, Some(d), [], dd, false);
    assert xdd == [x] + dd;
    assert RenderSeq([Text(x)], dd) == xdd;
    assert DerivesRun(xdd, Some(d), [Text(x)], dd, true);
    assert [d, x, d, d][1..] == xdd;
    assert CloserAttrs(dd) == (None, [d]);
  }

  /** `dxdxdd`: a span around `x` and the span `dxd`. */
  lemma OuterDerives(d: char, x: char)
    requires IsDelim(d) && IsPlain(x) && x != '{'
    ensures DerivesRun([d, x, d, x, d, d], None,
                       [Delimited(d, [Text(x), Delimited(d, [Text(x)], None)], None)], [], false)
  {
    var t := [d, x, d, x, d, d];
    var inner := Delimited(d, [Text(x)], None);
    var outer := Delimited(d, [Text(x), inner], None);
    InnerDerives(d, x);
    assert Attributes.RenderOptional(None, []) == [];
    MatchStart([x, d, x, d, d]);
    assert DerivesRun([d], Some(d), [], [d], false);
    assert DerivesRun([d, x, d, d], Some(d), [inner], [d], false);
    assert RenderSeq([inner], [d]) == [d, x, d, d];
    assert [x, d, x, d, d] == [x] + [d, x, d, d];
    assert DerivesRun([x, d, x, d, d], Some(d), [Text(x), inner], [d], true);
    assert t[1..] == [x, d, x, d, d];
    var close := [d] + Attributes.RenderOptional(None, []);
    assert close == [d] && CloserAttrs(close) == (None, []);
    assert Derives(t, outer, []);
  }

  /** An opener with no character `d` after it can only be a literal. */
  lemma UnmatchedIsLiteral(d: char, x: string, n: Node, rest: string)
    requires IsDelim(d) && (forall i :: 0 <= i < |x| ==> x[i] != d)
    requires Derives([d] + x, n, rest)
    ensures n == Fallback(d) && rest == x
  {
    var t := [d] + x;
    assert t[0] == d && t[1..] == x;
    MatchStart(t);
    var i := SpanCloser(t, n, rest);
  }

  /** The closer of a derived span is a character of its own kind after the
      opener. */
  lemma SpanCloser(t: string, n: Node, rest: string) returns (i: nat)
    requires Derives(t, n, rest)
    ensures n.Delimited? ==> 1 <= i < |t| && t[1..][i - 1] == n.delim
  {
    i := 0;
    if n.Delimited? {
      var close := [n.delim] + Attributes.RenderOptional(n.attrs, rest);
      var u := t[1..];
      DerivesRunText(u, Some(n.delim), n.children, close, true);
      RenderSeqEndsWith(n.children, close);
      i := |u| - |close| + 1;
      assert u[i - 1] == close[0];
    }
  }

  /** On a line, an opener with no character `d` after it stays a literal `d`. */
  lemma UnmatchedInLine(d: char, x: string)
    requires IsDelim(d) && (forall i :: 0 <= i < |x| ==> x[i] != d)
    ensures var r := ParseLine([d] + x);
            r.0 != [] && r.0[0] == Fallback(d)
  {
    var t := [d] + x;
    var r := ParseLine(t);
    UnmatchedIsLiteral(d, x, r.0[0], RenderSeq(r.0[1..], r.1));
  }

  // ---------------------------------------------------------------- pairs

  /** A closer followed by the end of the line and no literal: the run ends at
      it. */
  lemma CloserRun(d: char, k: string, ms: seq<Node>, close: string)
    requires IsDelim(d) && (k == [] || k[0] == '\n')
    requires DerivesRun([d] + k, Some(d), ms, close, false) && LiteralsSeq(ms) == 0
    ensures ms == [] && close == [d] + k
  {
    var t := [d] + k;
    assert t[0] == d && t[1..] == k;
    RunHead(t, Some(d), ms, close, false);
  }

  lemma LiteralsSplit(ns: seq<Node>, m: nat)
    requires m <= |ns|
    ensures LiteralsSeq(ns) == LiteralsSeq(ns[..m]) + LiteralsSeq(ns[m..])
  {
    if m > 0 {
      LiteralsSplit(ns[1..], m - 1);
      assert ns[..m] == [ns[0]] + ns[1..][..m - 1];
      LiteralsCons(ns[0], ns[1..][..m - 1]);
      assert ns[m..] == ns[1..][m - 1..];
    } else {
      assert ns[m..] == ns;
    }
  }

  /** The inner run of the span opened by `d` over plain `w`: the text of `w`, closed
      by the `d` after it. */
  lemma PairInner(d: char, w: string, k: string, ch: seq<Node>, close: string)
    requires IsDelim(d) && w != [] && All(IsPlain, w) && (k == [] || k[0] == '\n')
    requires DerivesRun(w + ([d] + k), Some(d), ch, close, true) && LiteralsSeq(ch) == 0
    ensures ch == Texts(w) && close == [d] + k
  {
    PlainRun(w, [d] + k, Some(d), ch, close, true);
    LiteralsSplit(ch, |w|);
    TextsLiterals(w);
    CloserRun(d, k, ch[|w|..], close);
    assert ch == ch[..|w|] + ch[|w|..];
  }

  /** The only derivation without literals of a pair around plain text. */
  lemma PairUnique(d: char, w: string, k: string, ns: seq<Node>, rest: string)
    requires IsDelim(d) && w != [] && All(IsPlain, w) && (k == [] || k[0] == '\n')
    requires DerivesRun([d] + (w + ([d] + k)), None, ns, rest, false) && LiteralsSeq(ns) == 0
    ensures ns == [Delimited(d, Texts(w), None)] && rest == k
  {
    var t := [d] + (w + ([d] + k));
    assert t[0] == d && t[1..] == w + ([d] + k);
    RunHead(t, None, ns, rest, false);
    var n := ns[0];
    var u := RenderSeq(ns[1..], rest);
    var close := [d] + Attributes.RenderOptional(n.attrs, u);
    PairInner(d, w, k, n.children, close);
    assert close[1..] == k;
    RunAtStop(u, None, ns[1..], rest, false);
    assert ns == [n] + ns[1..];
  }

  /** Pairing of plain text: a delimiter, plain text and the same delimiter at the
      end of the line is emphasis (for `_`) or strong emphasis (for `*`)
      containing exactly that text. */
  lemma PlainPairIsEmphasis(d: char, w: string, k: string)
    requires IsDelim(d) && w != [] && All(IsPlain, w)
    requires k == [] || k[0] == '\n'
    ensures ParseLine([d] + w + [d] + k) == ([Delimited(d, Texts(w), None)], k)
  {
    var t := [d] + (w + ([d] + k));
    assert [d] + w + [d] + k == t;
    var e := Delimited(d, Texts(w), None);
    var close := [d] + k;
    assert close[0] == d && close[1..] == k;
    assert Attributes.RenderOptional(None, k) == k;
    assert DerivesRun(close, Some(d), [], close, false);
    TextsDerive(w, close, Some(d), [], close, true);
    assert Texts(w) + [] == Texts(w);
    assert t[1..] == w + close;
    assert Derives(t, e, k);
    RunAtStop(k, None, [], k, false);
    assert DerivesRun(t, None, [e], k, false);
    LineOptimal(t, [e], k);
    TextsLiterals(w);
    LiteralsCons(e, []);
    var r := ParseLine(t);
    PairUnique(d, w, k, r.0, r.1);
  }

  /** `_ab_` is emphasis, and `*a` with no closer keeps its star as a literal. */
  lemma Examples()
    ensures ParseLine("_ab_") == ([Delimited('_', [Text('a'), Text('b')], None)], [])
    ensures ParseLine("*a") == ([Fallback('*'), Text('a')], [])
  {
    PlainPairIsEmphasis('_', "ab", []);
    assert "_ab_" == ['_'] + "ab" + ['_'] + [];
    assert Texts("ab") == [Text('a'), Text('b')];

    var r := ParseLine("*a");
    assert "*a" == ['*'] + "a";
    UnmatchedInLine('*', "a");
    var u := RenderSeq(r.0[1..], r.1);
    UnmatchedIsLiteral('*', "a", r.0[0], u);
    assert "a" == "a" + [];
    PlainRun("a", [], None, r.0[1..], r.1, false);
    RunAtStop([], None, r.0[1..][1..], r.1, false);
    assert Texts("a") == [Text('a')];
    assert r.0[1..][..1] == [Text('a')] && r.0[1..][1..] == [] && r.1 == [];
    assert r.0 == [r.0[0]] + r.0[1..][..1] + r.0[1..][1..];
    assert r.0 == [Fallback('*'), Text('a')];
  }
}
