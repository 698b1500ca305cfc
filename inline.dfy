/** Inline content (grammar.js, rules `_inline`, `verbatim`, `emphasis`,
    `strong_emphasis`, `_fallback`, `_fallback_star`, `_text`): the syntax tree,
    its text, and the derivations the grammar admits under the lexer's rules.

    The lexer in inline position offers the tokens `verbatim`, `_`, `*` and
    `_text` (any one character but a newline); a string token beats `_text` at
    equal length and `verbatim` beats it by length. Where a delimiter could close
    the innermost open span of its kind, the lexer also offers `{`, which then
    begins the span's attributes.

    The grammar is ambiguous: every `_` and `*` may open a span, close one, or be a
    literal. `Derives` and `DerivesRun` state all of these derivations; which one
    the parser picks is the business of module `InlineParse`. */
module Inline {
  import opened Common
  import Attributes
  import Verbatim

  /** `_` or `*`. */
  predicate IsDelim(c: char) { c == '_' || c == '*' }

  datatype Node =
    | Text(c: char)                                   // _text
    | Fallback(delim: char)                           // _fallback, _fallback_star
    | VerbatimSpan(fence: nat, content: string)       // verbatim
      /** emphasis (delim `_`) or strong_emphasis (delim `*`) */
    | Delimited(delim: char, children: seq<Node>, attrs: Option<Attributes.AttrSpan>)

  // ---------------------------------------------------------------- rendering

  /** The text of `n` followed by `k`. */
  function Render(n: Node, k: string): string
    decreases n
  {
    match n
    case Text(c) => [c] + k
    case Fallback(d) => [d] + k
    case VerbatimSpan(f, c) => Verbatim.Ticks(f) + (c + (Verbatim.Ticks(f) + k))
    case Delimited(d, ch, a) => [d] + RenderSeq(ch, [d] + Attributes.RenderOptional(a, k))
  }

  /** The text of the nodes `ns` in order, followed by `k`. */
  function RenderSeq(ns: seq<Node>, k: string): string
    decreases ns
  {
    if ns == [] then k else Render(ns[0], RenderSeq(ns[1..], k))
  }

  lemma SeqCons(n: Node, ns: seq<Node>, k: string)
    ensures RenderSeq([n] + ns, k) == Render(n, RenderSeq(ns, k))
  {
    assert ([n] + ns)[0] == n && ([n] + ns)[1..] == ns;
  }

  // ---------------------------------------------------------------- lexer decisions

  /** A delimiter `d` at the start of `t` can close: it is followed by nothing, by
      something other than `{`, or by an attribute span that parses. */
  predicate ClosesAt(t: string, d: char) {
    && t != [] && t[0] == d
    && (|t| == 1 || t[1] != '{' || Attributes.ParseAttributes(t[1..]).Some?)
  }

  /** What follows the closing delimiter at the start of `r`: the attribute span,
      when one parses there, and the text after it. */
  function CloserAttrs(r: string): (res: (Option<Attributes.AttrSpan>, string))
    requires r != []
    ensures r == [r[0]] + Attributes.RenderOptional(res.0, res.1)
    ensures EndsWith(r, res.1) && |res.1| < |r|
    ensures res.0.Some? ==> Attributes.SpanWF(res.0.value)
    ensures |r| == 1 || r[1] != '{' ==> res == (None, r[1..])
  {
    var after := r[1..];
    assert r == [r[0]] + after;
    var pa := Attributes.ParseAttributes(after);
    if pa.Some? then
      var a, rest := pa.value.0, pa.value.1;
      Attributes.ParseAttributesSound(after);
      Attributes.OptionalEndsWith(Some(a), rest);
      EndsWithTrans(r, after, rest);
      (Some(a), rest)
    else
      (None, after)
  }

  /** Where a run may end: the run of a line at the end of the input or at a
      newline, the inner run of a span at a usable closer of its kind. */
  predicate Ends(t: string, c: Option<char>) {
    if c.None? then t == [] || t[0] == '\n' else ClosesAt(t, c.value)
  }

  /** Inside a span of `d`, a `d` followed by `{` can only close that span: the
      lexer reads the `{` as the start of attributes (the string token beats
      `_text`), and only a closer may be followed by attributes. */
  predicate Forced(t: string, c: Option<char>) {
    c.Some? && |t| >= 2 && t[0] == c.value && t[1] == '{'
  }

  // ---------------------------------------------------------------- derivations

  /** The grammar derives the item `n` at the start of `t`, and `rest` follows it:
      a character other than a newline or a delimiter as `_text` (a backtick only
      where no verbatim token matches), a delimiter as a literal, the verbatim
      token, or a span whose inner run ends at a usable closer of its kind. */
  predicate Derives(t: string, n: Node, rest: string)
    decreases n, 1
  {
    match n
    case Text(c) =>
      && t == [c] + rest && c != '\n' && !IsDelim(c)
      && (c == '`' ==> Verbatim.Match(t).None?)
    case Fallback(d) => IsDelim(d) && t == [d] + rest
    case VerbatimSpan(f, c) => Verbatim.Match(t) == Some((f, c, rest))
    case Delimited(d, ch, a) =>
      && IsDelim(d) && t != [] && t[0] == d
      && var close := [d] + Attributes.RenderOptional(a, rest);
         && DerivesRun(t[1..], Some(d), ch, close, true)
         && ClosesAt(close, d)
         && CloserAttrs(close) == (a, rest)
  }

  /** The grammar derives the run `ns` at the start of `t` in the context `c` (the
      innermost open delimiter, if any), and the run ends where `rest` begins. The
      first item of a span (`first`) is taken before the run may end and is never
      forced to close. */
  predicate DerivesRun(t: string, c: Option<char>, ns: seq<Node>, rest: string, first: bool)
    decreases ns, 0
  {
    if ns == [] then !first && t == rest && Ends(t, c)
    else
      var u := RenderSeq(ns[1..], rest);
      && (first || !Forced(t, c))
      && Derives(t, ns[0], u)
      && DerivesRun(u, c, ns[1..], rest, false)
  }

  /** A derived item is its own text, takes at least one character, and starts
      with something other than a newline. */
  lemma {:induction false} DerivesText(t: string, n: Node, rest: string)
    requires Derives(t, n, rest)
    ensures t == Render(n, rest) && |rest| < |t| && t[0] != '\n'
    decreases n, 1
  {
    match n
    case Text(_) =>
    case Fallback(_) =>
    case VerbatimSpan(f, c) =>
      Verbatim.MatchSound(t);
      assert t[0] == Verbatim.Ticks(f)[0];
    case Delimited(d, ch, a) =>
      var close := [d] + Attributes.RenderOptional(a, rest);
      DerivesRunText(t[1..], Some(d), ch, close, true);
      Attributes.OptionalEndsWith(a, rest);
      assert t == [d] + t[1..];
  }

  /** A derived run is its own text; a span's inner run is not empty. */
  lemma {:induction false} DerivesRunText(t: string, c: Option<char>, ns: seq<Node>, rest: string, first: bool)
    requires DerivesRun(t, c, ns, rest, first)
    ensures t == RenderSeq(ns, rest) && |rest| <= |t| && Ends(rest, c)
    ensures ns != [] ==> |rest| < |t| && t[0] != '\n'
    ensures first ==> ns != []
    decreases ns, 0
  {
    if ns != [] {
      var u := RenderSeq(ns[1..], rest);
      DerivesText(t, ns[0], u);
      DerivesRunText(u, c, ns[1..], rest, false);
    }
  }

  // ---------------------------------------------------------------- shapes

  /** The shape of a derived node, without its context: a character other than a
      newline or a delimiter, a delimiter as a literal, a verbatim token, or a
      delimited span with a non-empty inner `_inline` and well-formed attributes. */
  predicate NodeWF(n: Node)
    decreases n
  {
    match n
    case Text(c) => c != '\n' && !IsDelim(c)
    case Fallback(d) => IsDelim(d)
    case VerbatimSpan(f, c) => 1 <= f <= 4 && Verbatim.IsContent(f, c)
    case Delimited(d, ch, a) =>
      IsDelim(d) && ch != [] && SeqWF(ch) && (a.Some? ==> Attributes.SpanWF(a.value))
  }

  predicate SeqWF(ns: seq<Node>)
    decreases ns
  {
    ns == [] || (NodeWF(ns[0]) && SeqWF(ns[1..]))
  }

  /** Every derived item has the shape of a node. */
  lemma {:induction false} DerivesWF(t: string, n: Node, rest: string)
    requires Derives(t, n, rest)
    ensures NodeWF(n)
    decreases n, 1
  {
    match n
    case Text(_) =>
    case Fallback(_) =>
    case VerbatimSpan(_, _) =>
      Verbatim.MatchSound(t);
    case Delimited(d, ch, a) =>
      var close := [d] + Attributes.RenderOptional(a, rest);
      DerivesRunWF(t[1..], Some(d), ch, close, true);
      DerivesRunText(t[1..], Some(d), ch, close, true);
  }

  lemma {:induction false} DerivesRunWF(t: string, c: Option<char>, ns: seq<Node>, rest: string, first: bool)
    requires DerivesRun(t, c, ns, rest, first)
    ensures SeqWF(ns)
    decreases ns, 0
  {
    if ns != [] {
      var u := RenderSeq(ns[1..], rest);
      DerivesWF(t, ns[0], u);
      DerivesRunWF(u, c, ns[1..], rest, false);
    }
  }

  // ---------------------------------------------------------------- literals

  /** The number of delimiters left literal: each costs the grammar's dynamic
      precedence -100 (`_fallback`, `_fallback_star`). */
  function Literals(n: Node): nat
    decreases n
  {
    match n
    case Fallback(_) => 1
    case Delimited(_, ch, _) => LiteralsSeq(ch)
    case _ => 0
  }

  function LiteralsSeq(ns: seq<Node>): nat
    decreases ns
  {
    if ns == [] then 0 else Literals(ns[0]) + LiteralsSeq(ns[1..])
  }

  lemma LiteralsCons(n: Node, ns: seq<Node>)
    ensures LiteralsSeq([n] + ns) == Literals(n) + LiteralsSeq(ns)
  {
    assert ([n] + ns)[0] == n && ([n] + ns)[1..] == ns;
  }

  // ---------------------------------------------------------------- text facts

  lemma {:induction false} RenderEndsWith(n: Node, k: string)
    ensures EndsWith(Render(n, k), k)
    decreases n, 1
  {
    match n
    case Text(_) =>
    case Fallback(_) =>
    case VerbatimSpan(f, c) =>
      var tk := Verbatim.Ticks(f);
      EndsWithTrans(c + (tk + k), tk + k, k);
      EndsWithTrans(Render(n, k), c + (tk + k), k);
    case Delimited(d, ch, a) =>
      var ka := Attributes.RenderOptional(a, k);
      var dk := [d] + ka;
      var body := RenderSeq(ch, dk);
      assert Render(n, k) == [d] + body;
      Attributes.OptionalEndsWith(a, k);
      assert EndsWith(dk, ka);
      EndsWithTrans(dk, ka, k);
      RenderSeqEndsWith(ch, dk);
      EndsWithTrans(body, dk, k);
      assert EndsWith([d] + body, body);
      EndsWithTrans([d] + body, body, k);
  }

  /** The text of a sequence of nodes ends with whatever follows it. */
  lemma {:induction false} RenderSeqEndsWith(ns: seq<Node>, k: string)
    ensures EndsWith(RenderSeq(ns, k), k)
    decreases ns, 0
  {
    if ns != [] {
      var inner := RenderSeq(ns[1..], k);
      RenderSeqEndsWith(ns[1..], k);
      RenderEndsWith(ns[0], inner);
      EndsWithTrans(RenderSeq(ns, k), inner, k);
    }
  }

  /** A character absent from a text is absent from every suffix of it. */
  lemma AbsentFromSuffix(t: string, k: string, c: char)
    requires EndsWith(t, k)
    requires forall i :: 0 <= i < |t| ==> t[i] != c
    ensures forall i :: 0 <= i < |k| ==> k[i] != c
  {
    forall i | 0 <= i < |k| ensures k[i] != c {
      assert k[i] == t[|t| - |k| + i];
    }
  }

  lemma LastOf(t: string, k: string)
    requires EndsWith(t, k) && k != []
    ensures t[|t| - 1] == k[|k| - 1]
  {
    assert t[|t| - |k|..][|k| - 1] == t[|t| - 1];
  }

  /** A node of derived shape never ends with a newline: a verbatim token ends
      with its fence, a delimited span with its closer or the `}` of its
      attributes. */
  lemma NodeLast(n: Node)
    requires NodeWF(n)
    ensures var t := Render(n, []); t != [] && t[|t| - 1] != '\n'
  {
    var t := Render(n, []);
    match n
    case Text(_) =>
    case Fallback(_) =>
    case VerbatimSpan(f, c) =>
      var tk := Verbatim.Ticks(f);
      assert t == (tk + c) + (tk + []);
      assert t[|t| - 1] == tk[f - 1];
    case Delimited(d, ch, a) =>
      var ka := Attributes.RenderOptional(a, []);
      var body := RenderSeq(ch, [d] + ka);
      assert t == [d] + body;
      RenderSeqEndsWith(ch, [d] + ka);
      assert EndsWith(t, body);
      EndsWithTrans(t, body, [d] + ka);
      if a.Some? {
        Attributes.RenderEndsWith(a.value, []);
        assert EndsWith([d] + ka, ka);
        EndsWithTrans(t, [d] + ka, ka);
        LastOf(t, ka);
        LastOf(ka, "}" + []);
      } else {
        LastOf(t, [d] + ka);
      }
  }

  /** The text of a non-empty sequence of nodes of derived shape does not end
      with a newline. */
  lemma {:induction false} RunLast(ns: seq<Node>)
    requires ns != [] && SeqWF(ns)
    ensures var t := RenderSeq(ns, []); t != [] && t[|t| - 1] != '\n'
  {
    var t := RenderSeq(ns, []);
    var inner := RenderSeq(ns[1..], []);
    assert t == Render(ns[0], inner);
    if ns[1..] == [] {
      NodeLast(ns[0]);
    } else {
      RunLast(ns[1..]);
      RenderEndsWith(ns[0], inner);
      LastOf(t, inner);
    }
  }
}
