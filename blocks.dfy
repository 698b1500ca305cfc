/** Blocks (grammar.js, rules `document`, `_block`, `heading`, `heading_marker`,
    `code_block`, `code_block_marker`, `code`, `language`, `paragraph`).

    A document is a sequence of blocks; each block starts where the previous one
    ended. At the start of a block the lexer offers `"\n"`, `heading_marker`, the
    code block marker "```" and the tokens that begin inline content, and takes
    the longest match: "```" opens a code block unless a verbatim token matches
    there, since that token is longer. Inside a paragraph or heading only inline
    tokens, `"\n"` and the external `_close_paragraph` are valid, so a later line
    that looks like a heading or a fence is inline content. The model takes
    `_close_paragraph` to occur at the end of the input only: block quotes and
    divs, which also produce it, are not part of this model. */
module Blocks {
  import opened Common
  import Attributes
  import Verbatim
  import Inline
  import InlineParse

  type Line = seq<Inline.Node>

  datatype Block =
      /** heading: the marker's `#` count and its spaces and tabs, the inline lines,
          and whether a blank line (rather than the end of the input) ends it */
    | Heading(level: nat, gap: string, lines: seq<Line>, blankEnd: bool)
      /** code_block: optional language, optional attributes, literal lines */
    | CodeBlock(language: Option<string>, attrs: Option<Attributes.AttrSpan>, code: seq<string>)
    | Paragraph(lines: seq<Line>, blankEnd: bool)
      /** a bare "\n" between blocks */
    | BlankLine

  // ---------------------------------------------------------------- classes

  predicate IsHash(c: char) { c == '#' }

  /** `[^\s{]`: a character of a code block's language. */
  predicate IsLangChar(c: char) { !IsWhitespace(c) && c != '{' }

  /** `[^\n]`: a character of a code line. */
  predicate NotNewline(c: char) { c != '\n' }

  const Fence: string := "```"

  // ---------------------------------------------------------------- rendering

  /** Inline lines, each followed by its newline, then `k`. */
  function RenderLines(ls: seq<Line>, k: string): string
    decreases ls
  {
    if ls == [] then k else Inline.RenderSeq(ls[0], "\n" + RenderLines(ls[1..], k))
  }

  /** The terminator of a paragraph or heading: a blank line, or nothing at the end
      of the input. */
  function RenderEnd(blankEnd: bool, k: string): string {
    if blankEnd then "\n" + k else k
  }

  /** Lines of text, each followed by its newline, then `k`. */
  function JoinLines(ls: seq<string>, k: string): string
    decreases ls
  {
    if ls == [] then k else ls[0] + ("\n" + JoinLines(ls[1..], k))
  }

  function RenderLang(lang: Option<string>, k: string): string {
    if lang.None? then k else lang.value + k
  }

  function RenderBlock(b: Block, k: string): string {
    match b
    case Heading(h, g, ls, e) => Repeat('#', h) + (g + RenderLines(ls, RenderEnd(e, k)))
    case CodeBlock(lang, a, ls) =>
      Fence + RenderLang(lang, Attributes.RenderOptional(a, "\n" + JoinLines(ls, Fence + k)))
    case Paragraph(ls, e) => RenderLines(ls, RenderEnd(e, k))
    case BlankLine => "\n" + k
  }

  function RenderBlocks(bs: seq<Block>): string
    decreases bs
  {
    if bs == [] then [] else RenderBlock(bs[0], RenderBlocks(bs[1..]))
  }

  // ---------------------------------------------------------------- parsing

  /** `heading_marker`: one or more `#`, then one or more spaces or tabs, both
      greedy. The result is the level (the `#` count), the spaces and tabs, and
      the rest of the input. */
  function ParseHeadingMarker(s: string): (r: Option<(nat, string, string)>)
    ensures r.Some? ==> s == Repeat('#', r.value.0) + (r.value.1 + r.value.2)
  {
    var h := Span(IsHash, s);
    if h == 0 then None
    else
      var t := s[h..];
      var g := Span(IsSpaceOrTab, t);
      if g == 0 then None
      else
        SpanProps(IsHash, s);
        HashesAreRepeat(s[..h]);
        assert s == s[..h] + (t[..g] + t[g..]);
        Some((h, t[..g], t[g..]))
  }

  lemma HashesAreRepeat(x: string)
    requires All(IsHash, x)
    ensures x == Repeat('#', |x|)
  {
  }

  /** `repeat1(seq($._inline, "\n"))` followed by `"\n"` or `_close_paragraph`:
      the lines, whether a blank line ends them, and the rest of the input. A line
      is a non-empty inline run that must end with a newline. */
  function ParseLines(t: string): (r: Option<(seq<Line>, bool, string)>)
    ensures r.Some? ==> |r.value.2| < |t|
    ensures r.Some? ==> t == RenderLines(r.value.0, RenderEnd(r.value.1, r.value.2))
    decreases |t|
  {
    var run := InlineParse.ParseLine(t);
    var items, r := run.0, run.1;
    if items == [] || r == [] then None
    else
      var u := r[1..];
      assert r == "\n" + u;
      if u == [] then Some(([items], false, []))
      else if u[0] == '\n' then
        assert u == "\n" + u[1..];
        Some(([items], true, u[1..]))
      else
        var more := ParseLines(u);
        if more.None? then None
        else
          var ls, e, rest := more.value.0, more.value.1, more.value.2;
          assert ([items] + ls)[0] == items && ([items] + ls)[1..] == ls;
          Some(([items] + ls, e, rest))
  }

  /** The closing code block marker: a line that is exactly "```", ended by a
      newline or by the end of the input. Such a line is lexed as the marker
      rather than as a code line: the two match the same length and the string
      token wins. */
  predicate IsFence(t: string) {
    |t| >= 3 && t[..3] == Fence && (|t| == 3 || t[3] == '\n')
  }

  /** `optional($.code)` then the closing marker: literal lines, each ended by a
      newline, up to the first line that is exactly "```". */
  function ParseCodeLines(t: string): (r: Option<(seq<string>, string)>)
    ensures r.Some? ==> |r.value.1| < |t|
    ensures r.Some? ==> t == JoinLines(r.value.0, Fence + r.value.1)
    decreases |t|
  {
    if IsFence(t) then
      assert t == t[..3] + t[3..];
      Some(([], t[3..]))
    else
      var sl := SplitLine(t);
      if sl.None? then None
      else
        var line, u := sl.value.0, sl.value.1;
        var more := ParseCodeLines(u);
        if more.None? then None
        else
          var ls, rest := more.value.0, more.value.1;
          assert ([line] + ls)[0] == line && ([line] + ls)[1..] == ls;
          Some(([line] + ls, rest))
  }

  /** A run of `[^\n]` then `"\n"`: a code line and what follows its newline. A last line
      without a newline is a syntax error. */
  function SplitLine(t: string): (r: Option<(string, string)>)
    ensures r.Some? ==> t == r.value.0 + ("\n" + r.value.1)
    ensures r.Some? ==> All(NotNewline, r.value.0)
    ensures r.None? <==> All(NotNewline, t)
  {
    var i := Span(NotNewline, t);
    SpanProps(NotNewline, t);
    if i == |t| then
      assert t[..i] == t;
      None
    else
      assert t == t[..i] + ("\n" + t[i + 1..]);
      Some((t[..i], t[i + 1..]))
  }

  /** `optional($.language)`: a greedy run of `[^\s{]`, absent when empty. */
  function ParseLanguage(t: string): (r: (Option<string>, string))
    ensures t == RenderLang(r.0, r.1)
    ensures r.0.Some? ==> r.0.value != [] && All(IsLangChar, r.0.value)
    ensures r.1 == [] || !IsLangChar(r.1[0])
  {
    var n := Span(IsLangChar, t);
    SpanProps(IsLangChar, t);
    assert t == t[..n] + t[n..];
    if n == 0 then (None, t) else (Some(t[..n]), t[n..])
  }

  /** The newline that ends the opening line of a code block. */
  function ParseNewline(u: string): (r: Option<string>)
    ensures r.Some? ==> u == "\n" + r.value
  {
    if u == [] || u[0] != '\n' then None
    else
      assert u == "\n" + u[1..];
      Some(u[1..])
  }

  /** The rest of the opening line after the language: optional attributes, then
      the newline. A `{` here must begin an attribute span that parses. */
  function ParseInfoEnd(t: string): (r: Option<(Option<Attributes.AttrSpan>, string)>)
    ensures r.Some? ==> |r.value.1| < |t|
    ensures r.Some? ==> t == Attributes.RenderOptional(r.value.0, "\n" + r.value.1)
  {
    if t == [] || t[0] != '{' then
      var nl := ParseNewline(t);
      if nl.None? then None else Some((None, nl.value))
    else
      var pa := Attributes.ParseAttributes(t);
      if pa.None? then None
      else
        var a, u := pa.value.0, pa.value.1;
        var nl := ParseNewline(u);
        if nl.None? then None else Some((Some(a), nl.value))
  }

  /** `code_block`, from its opening marker on: an optional language, optional
      attributes, a newline, the code lines and the closing marker. Anything else
      after the language (a space, say) is a syntax error. */
  function ParseCodeBlock(s: string): (r: Option<(Block, string)>)
    requires |s| >= 3 && s[..3] == Fence
    ensures r.Some? ==> |r.value.1| < |s|
    ensures r.Some? ==> s == RenderBlock(r.value.0, r.value.1)
  {
    var t := s[3..];
    assert s == Fence + t;
    var pl := ParseLanguage(t);
    var lang, t1 := pl.0, pl.1;
    var info := ParseInfoEnd(t1);
    if info.None? then None
    else
      var attrs, t2 := info.value.0, info.value.1;
      var body := ParseCodeLines(t2);
      if body.None? then None
      else
        var ls, rest := body.value.0, body.value.1;
        Some((CodeBlock(lang, attrs, ls), rest))
  }

  /** `_block`: a blank line, a heading, a code block or a paragraph. */
  function ParseBlock(s: string): (r: Option<(Block, string)>)
    requires s != []
    ensures r.Some? ==> |r.value.1| < |s|
    ensures r.Some? ==> s == RenderBlock(r.value.0, r.value.1)
  {
    var hm := ParseHeadingMarker(s);
    if s[0] == '\n' then
      assert s == "\n" + s[1..];
      Some((BlankLine, s[1..]))
    else if hm.Some? then
      var h, g, t := hm.value.0, hm.value.1, hm.value.2;
      var pl := ParseLines(t);
      if pl.None? then None
      else Some((Heading(h, g, pl.value.0, pl.value.1), pl.value.2))
    else if |s| >= 3 && s[..3] == Fence && Verbatim.Match(s).None? then
      ParseCodeBlock(s)
    else
      var pl := ParseLines(s);
      if pl.None? then None
      else Some((Paragraph(pl.value.0, pl.value.1), pl.value.2))
  }

  /** `document`: blocks up to the end of the input. */
  function ParseBlocks(s: string): (r: Option<seq<Block>>)
    ensures r.Some? ==> s == RenderBlocks(r.value)
    decreases |s|
  {
    if s == [] then Some([])
    else
      var pb := ParseBlock(s);
      if pb.None? then None
      else
        var b, rest := pb.value.0, pb.value.1;
        var more := ParseBlocks(rest);
        if more.None? then None
        else
          assert ([b] + more.value)[0] == b && ([b] + more.value)[1..] == more.value;
          Some([b] + more.value)
  }

  /** The whole input, with carriage returns skipped as the grammar's `extras`. */
  function ParseDocument(s: string): (r: Option<seq<Block>>)
    ensures r.Some? ==> RenderBlocks(r.value) == RemoveCR(s)
  {
    ParseBlocks(RemoveCR(s))
  }
}
