/** What the block rules promise: the heading marker's shape, the code block's
    shape and its round trip, how paragraphs and headings end, and that a
    paragraph always parses. */
module BlockProps {
  import opened Common
  import Attributes
  import Verbatim
  import Inline
  import InlineParse
  import opened Blocks

  // ---------------------------------------------------------------- derivations

  /** One or more lines, each a non-empty inline run of the shape its rules give. */
  predicate LinesWF(ls: seq<Line>)
    decreases ls
  {
    && ls != [] && ls[0] != [] && Inline.SeqWF(ls[0])
    && (|ls| == 1 || LinesWF(ls[1..]))
  }

  /** One or more lines followed by `k`. Each is a non-empty inline run that the
      grammar derives from the text it stands in, up to its newline, and no
      derivation of that text has fewer literal delimiters. */
  ghost predicate LinesDerive(ls: seq<Line>, k: string)
    decreases ls
  {
    && ls != [] && ls[0] != []
    && var after := "\n" + RenderLines(ls[1..], k);
       var t := Inline.RenderSeq(ls[0], after);
       && Inline.DerivesRun(t, None, ls[0], after, false)
       && (forall ms, r :: Inline.DerivesRun(t, None, ms, r, false) ==>
             Inline.LiteralsSeq(ls[0]) <= Inline.LiteralsSeq(ms))
       && (|ls| == 1 || LinesDerive(ls[1..], k))
  }

  /** Derived lines have the shape of inline runs. */
  lemma {:induction false} LinesDeriveWF(ls: seq<Line>, k: string)
    requires LinesDerive(ls, k)
    ensures LinesWF(ls)
    decreases ls
  {
    var after := "\n" + RenderLines(ls[1..], k);
    Inline.DerivesRunWF(Inline.RenderSeq(ls[0], after), None, ls[0], after, false);
    if |ls| > 1 {
      LinesDeriveWF(ls[1..], k);
    }
  }

  /** A code line: no newline, and not the closing marker on its own. */
  predicate CodeLineWF(l: string) {
    All(NotNewline, l) && l != Fence
  }

  predicate CodeWF(ls: seq<string>)
    decreases ls
  {
    ls == [] || (CodeLineWF(ls[0]) && CodeWF(ls[1..]))
  }

  predicate IsGap(g: string) {
    g != [] && All(IsSpaceOrTab, g)
  }

  /** A block followed by `k`, derived by its rule. */
  ghost predicate BlockWF(b: Block, k: string) {
    match b
    case Heading(h, g, ls, e) => h >= 1 && IsGap(g) && LinesDerive(ls, RenderEnd(e, k))
    case CodeBlock(lang, a, ls) =>
      && (lang.Some? ==> lang.value != [] && All(IsLangChar, lang.value))
      && (a.Some? ==> Attributes.SpanWF(a.value))
      && CodeWF(ls)
    case Paragraph(ls, e) => LinesDerive(ls, RenderEnd(e, k))
    case BlankLine => true
  }

  // ---------------------------------------------------------------- heading marker

  /** A heading marker is one or more `#` (the level, not capped at 6) followed by a
      greedy run of spaces and tabs. */
  lemma HeadingMarkerSound(s: string)
    requires ParseHeadingMarker(s).Some?
    ensures var m := ParseHeadingMarker(s).value;
            && m.0 >= 1 && IsGap(m.1)
            && (m.2 == [] || !IsSpaceOrTab(m.2[0]))
  {
    var h := Span(IsHash, s);
    SpanProps(IsSpaceOrTab, s[h..]);
  }

  /** Every marker is read back with its level. */
  lemma HeadingMarkerComplete(level: nat, gap: string, rest: string)
    requires level >= 1 && IsGap(gap)
    requires rest == [] || !IsSpaceOrTab(rest[0])
    ensures ParseHeadingMarker(Repeat('#', level) + (gap + rest)) == Some((level, gap, rest))
  {
    var hs := Repeat('#', level);
    var s := hs + (gap + rest);
    SpanConcat(IsHash, hs, gap + rest);
    assert s[level..] == gap + rest;
    SpanConcat(IsSpaceOrTab, gap, rest);
  }

  // ---------------------------------------------------------------- code blocks

  /** Code lines hold no newline, and none is the closing marker on its own. */
  lemma {:induction false} CodeLinesSound(t: string)
    requires ParseCodeLines(t).Some?
    ensures CodeWF(ParseCodeLines(t).value.0)
    decreases |t|
  {
    if !IsFence(t) {
      var line, u := SplitLine(t).value.0, SplitLine(t).value.1;
      assert t == line + ("\n" + u);
      FenceLine(line, u);
      CodeLinesSound(u);
      var ls := ParseCodeLines(t).value.0;
      assert ls[0] == line && ls[1..] == ParseCodeLines(u).value.0;
    }
  }

  lemma FenceLine(l: string, k: string)
    ensures l == Fence ==> IsFence(l + ("\n" + k))
  {
  }

  lemma SplitLineOf(l: string, k: string)
    requires All(NotNewline, l)
    ensures SplitLine(l + ("\n" + k)) == Some((l, k))
  {
    var t := l + ("\n" + k);
    SpanConcat(NotNewline, l, "\n" + k);
    assert t[..|l|] == l && t[|l| + 1..] == k;
  }

  /** A line that is not the closing marker on its own is a code line. */
  lemma NotFence(l: string, k: string)
    requires CodeLineWF(l)
    ensures !IsFence(l + ("\n" + k))
  {
    var t := l + ("\n" + k);
    if |l| >= 3 {
      assert t[..3] == l[..3];
      assert |l| > 3 ==> t[3] == l[3];
      assert |l| == 3 ==> l == l[..3];
    } else {
      assert t[|l|] == '\n';
    }
  }

  /** Code lines are read back literally, up to a closing marker followed by a
      newline or the end of the input. */
  lemma {:induction false} CodeLinesComplete(ls: seq<string>, rest: string)
    requires CodeWF(ls)
    requires rest == [] || rest[0] == '\n'
    ensures ParseCodeLines(JoinLines(ls, Fence + rest)) == Some((ls, rest))
  {
    var t := JoinLines(ls, Fence + rest);
    if ls == [] {
      assert t[..3] == Fence && t[3..] == rest;
    } else {
      var l, tail := ls[0], JoinLines(ls[1..], Fence + rest);
      assert t == l + ("\n" + tail);
      NotFence(l, tail);
      SplitLineOf(l, tail);
      CodeLinesComplete(ls[1..], rest);
      assert [l] + ls[1..] == ls;
    }
  }

  lemma InfoEndSound(t: string)
    requires ParseInfoEnd(t).Some?
    ensures var a := ParseInfoEnd(t).value.0; a.Some? ==> Attributes.SpanWF(a.value)
  {
    if t != [] && t[0] == '{' {
      Attributes.ParseAttributesSound(t);
    }
  }

  /** A code block has a well-formed language, attributes and lines. */
  lemma CodeBlockSound(s: string)
    requires |s| >= 3 && s[..3] == Fence && ParseCodeBlock(s).Some?
    ensures BlockWF(ParseCodeBlock(s).value.0, ParseCodeBlock(s).value.1)
  {
    var t1 := ParseLanguage(s[3..]).1;
    InfoEndSound(t1);
    CodeLinesSound(ParseInfoEnd(t1).value.1);
  }

  lemma InfoEndComplete(a: Option<Attributes.AttrSpan>, k: string)
    requires a.Some? ==> Attributes.SpanWF(a.value)
    ensures ParseInfoEnd(Attributes.RenderOptional(a, "\n" + k)) == Some((a, k))
  {
    if a.Some? {
      Attributes.ParseAttributesComplete(a.value, "\n" + k);
    }
  }

  lemma LanguageComplete(lang: Option<string>, k: string)
    requires lang.Some? ==> lang.value != [] && All(IsLangChar, lang.value)
    requires k == [] || !IsLangChar(k[0])
    ensures ParseLanguage(RenderLang(lang, k)) == (lang, k)
  {
    if lang.Some? {
      SpanConcat(IsLangChar, lang.value, k);
    }
  }

  /** The opening line of a code block is read back, from its marker on, with its
      language, attributes and lines, whatever follows the closing marker on its
      line's end. */
  lemma CodeBlockComplete(b: Block, rest: string)
    requires b.CodeBlock? && BlockWF(b, rest)
    requires rest == [] || rest[0] == '\n'
    ensures var s := RenderBlock(b, rest);
            |s| >= 3 && s[..3] == Fence && ParseCodeBlock(s) == Some((b, rest))
  {
    var body := JoinLines(b.code, Fence + rest);
    var info := Attributes.RenderOptional(b.attrs, "\n" + body);
    var s := RenderBlock(b, rest);
    assert s == Fence + RenderLang(b.language, info);
    assert s[3..] == RenderLang(b.language, info);
    assert info[0] == (if b.attrs.Some? then '{' else '\n');
    LanguageComplete(b.language, info);
    InfoEndComplete(b.attrs, body);
    CodeLinesComplete(b.code, rest);
  }

  /** No backtick before the first newline (or the end) of `t`. */
  predicate TickFreeLine(t: string)
    decreases |t|
  {
    t == [] || t[0] == '\n' || (t[0] != '`' && TickFreeLine(t[1..]))
  }

  lemma {:induction false} NoCloserInLine(n: nat, t: string)
    requires n >= 1 && TickFreeLine(t)
    ensures Verbatim.CloserAt(n, t).None?
    decreases |t|
  {
    if t != [] && t[0] != '\n' {
      NoCloserInLine(n, t[1..]);
    }
  }

  /** The block dispatch: "```" followed by an opening line without backticks
      cannot be a verbatim token, so it opens a code block, which reads back. */
  lemma CodeBlockRoundTrip(b: Block, rest: string)
    requires b.CodeBlock? && BlockWF(b, rest)
    requires rest == [] || rest[0] == '\n'
    requires TickFreeLine(RenderBlock(b, rest)[3..])
    ensures ParseBlock(RenderBlock(b, rest)) == Some((b, rest))
  {
    var s := RenderBlock(b, rest);
    CodeBlockComplete(b, rest);
    var t := s[3..];
    assert s == Fence + t;
    assert |t| > 0;
    assert t[0] != '`';
    SpanConcat(Verbatim.IsTick, Fence, t);
    NoCloserInLine(3, t);
    CodeDispatch(s);
  }

  // ---------------------------------------------------------------- lines

  /** Each line is a non-empty inline run derived from its own text with the
      fewest literal delimiters; a paragraph or heading that is not ended by a
      blank line ends at the end of the input. */
  lemma {:induction false} LinesSound(t: string)
    requires ParseLines(t).Some?
    ensures var p := ParseLines(t).value;
            LinesDerive(p.0, RenderEnd(p.1, p.2)) && (!p.1 ==> p.2 == [])
    decreases |t|
  {
    var run := InlineParse.ParseLine(t);
    LineFewest(t);
    var u := run.1[1..];
    var p := ParseLines(t).value;
    var ls, k := p.0, RenderEnd(p.1, p.2);
    assert ls[0] == run.0;
    if u != [] && u[0] != '\n' {
      LinesSound(u);
      assert ls[1..] == ParseLines(u).value.0;
    }
    assert run.1 == "\n" + RenderLines(ls[1..], k);
  }

  /** Shape alone does not make a line: three text items such as "`a`" have the
      shape of an inline run, but that text is a verbatim token, so they are not
      derived. */
  lemma TicksAreNoText(x: char)
    requires x != '`' && x != '\n' && !Inline.IsDelim(x)
    ensures LinesWF([[Inline.Text('`'), Inline.Text(x), Inline.Text('`')]])
    ensures !LinesDerive([[Inline.Text('`'), Inline.Text(x), Inline.Text('`')]], [])
  {
    var n2 := [Inline.Text('`')];
    var n1 := [Inline.Text(x)] + n2;
    var ns := [Inline.Text('`')] + n1;
    var t := ['`', x, '`', '\n'];
    assert n2[1..] == [] && n1[1..] == n2 && ns[1..] == n1;
    assert Inline.SeqWF(n2);
    assert Inline.SeqWF(n1);
    assert ns == [Inline.Text('`'), Inline.Text(x), Inline.Text('`')];
    var ls := [ns];
    assert ls[0] == ns && ls[1..] == [];
    assert "\n" + RenderLines(ls[1..], []) == "\n";
    assert Inline.RenderSeq(n2, "\n") == ['`', '\n'];
    assert Inline.RenderSeq(n1, "\n") == [x, '`', '\n'];
    assert Inline.RenderSeq(ns, "\n") == t;
    TickedMatch(x, "\n");
    assert t == ['`', x, '`'] + "\n";
    TickNotText(t, ns, "\n");
  }

  /** A backtick that begins a verbatim token is not a text item. */
  lemma TickNotText(t: string, ns: seq<Inline.Node>, rest: string)
    ensures Verbatim.Match(t).Some? && ns != [] && ns[0] == Inline.Text('`') ==>
            !Inline.DerivesRun(t, None, ns, rest, false)
  {
  }

  /** A character between single backticks is a verbatim span. */
  lemma TickedMatch(x: char, rest: string)
    requires x != '`' && x != '\n'
    ensures Verbatim.Match(['`', x, '`'] + rest).Some?
  {
    assert Verbatim.IsContent(1, [x]);
    Verbatim.MatchComplete(1, [x], rest);
    assert Verbatim.Ticks(1) + ([x] + (Verbatim.Ticks(1) + rest)) == ['`', x, '`'] + rest;
  }

  /** The run read from a line is derived from it with the fewest literals. */
  lemma LineFewest(t: string)
    ensures var run := InlineParse.ParseLine(t);
            && Inline.DerivesRun(t, None, run.0, run.1, false)
            && forall ms, r :: Inline.DerivesRun(t, None, ms, r, false) ==>
                 Inline.LiteralsSeq(run.0) <= Inline.LiteralsSeq(ms)
  {
    forall ms, r | Inline.DerivesRun(t, None, ms, r, false)
      ensures Inline.LiteralsSeq(InlineParse.ParseLine(t).0) <= Inline.LiteralsSeq(ms)
    {
      InlineParse.LineOptimal(t, ms, r);
    }
  }

  /** A non-empty text that does not start with a newline and ends with one is
      one inline run followed by a newline. */
  lemma LineEnds(t: string)
    requires t != [] && t[0] != '\n' && t[|t| - 1] == '\n'
    ensures var run := InlineParse.ParseLine(t);
            run.0 != [] && run.1 != [] && run.1[0] == '\n'
  {
    InlineParse.ConsumedAll(t);
  }

  /** Paragraph totality: any text that starts with something other than a newline
      and ends with a newline parses as lines, ended by a blank line or by the end
      of the input. */
  lemma {:induction false} LinesTotal(t: string)
    requires t != [] && t[0] != '\n' && t[|t| - 1] == '\n'
    ensures ParseLines(t).Some?
    decreases |t|
  {
    var run := InlineParse.ParseLine(t);
    LineEnds(t);
    var r := run.1;
    var u := r[1..];
    if u != [] && u[0] != '\n' {
      Inline.RenderSeqEndsWith(run.0, r);
      assert EndsWith(r, u);
      EndsWithTrans(t, r, u);
      Inline.LastOf(t, u);
      LinesTotal(u);
    }
  }

  // ---------------------------------------------------------------- blocks

  /** Every block is derived by the grammar from the text it stands in, and only a
      blank line (or a block ended by one) ends a paragraph or heading before the
      end of the input. */
  lemma BlockSound(s: string)
    requires s != [] && ParseBlock(s).Some?
    ensures BlockWF(ParseBlock(s).value.0, ParseBlock(s).value.1)
    ensures var (b, rest) := ParseBlock(s).value;
            (b.Paragraph? || b.Heading?) && !b.blankEnd ==> rest == []
  {
    var hm := ParseHeadingMarker(s);
    if s[0] == '\n' {
    } else if hm.Some? {
      HeadingMarkerSound(s);
      LinesSound(hm.value.2);
    } else if |s| >= 3 && s[..3] == Fence && Verbatim.Match(s).None? {
      CodeBlockSound(s);
    } else {
      LinesSound(s);
    }
  }

  /** A heading: a marker, then text that ends with a newline. */
  lemma HeadingTotal(level: nat, gap: string, t: string)
    requires level >= 1 && IsGap(gap)
    requires t != [] && !IsSpaceOrTab(t[0]) && t[0] != '\n' && t[|t| - 1] == '\n'
    ensures var r := ParseBlock(Repeat('#', level) + (gap + t));
            r.Some? && r.value.0.Heading? && r.value.0.level == level && r.value.0.gap == gap
  {
    var s := Repeat('#', level) + (gap + t);
    HeadingMarkerComplete(level, gap, t);
    assert s[0] == '#';
    LinesTotal(t);
  }

  /** The paragraph is the block of last resort: text ending with a newline that
      does not start a blank line, a heading or a code block is a paragraph. */
  lemma ParagraphTotal(s: string)
    requires s != [] && s[0] != '\n' && s[|s| - 1] == '\n'
    requires ParseHeadingMarker(s).None?
    requires !(|s| >= 3 && s[..3] == Fence && Verbatim.Match(s).None?)
    ensures ParseBlock(s).Some? && ParseBlock(s).value.0.Paragraph?
  {
    LinesTotal(s);
  }

  // ---------------------------------------------------------------- documents

  /** Every block of a document is derived by the grammar from the text it stands
      in, the blocks after it included, and a paragraph or heading that no blank
      line ends is the last block. */
  ghost predicate DocWF(bs: seq<Block>)
    decreases bs
  {
    bs == [] ||
    (&& BlockWF(bs[0], RenderBlocks(bs[1..]))
     && ((bs[0].Paragraph? || bs[0].Heading?) && !bs[0].blankEnd ==> |bs| == 1)
     && DocWF(bs[1..]))
  }

  lemma {:induction false} DocumentSound(s: string)
    requires ParseBlocks(s).Some?
    ensures DocWF(ParseBlocks(s).value)
    decreases |s|
  {
    if s != [] {
      var b, rest := ParseBlock(s).value.0, ParseBlock(s).value.1;
      BlockSound(s);
      DocumentSound(rest);
      var bs := ParseBlocks(s).value;
      assert bs[0] == b && bs[1..] == ParseBlocks(rest).value;
      assert rest == [] ==> ParseBlocks(rest).value == [];
    }
  }

  /** A document of blank lines only. */
  lemma BlankDocument(n: nat)
    ensures ParseBlocks(Repeat('\n', n)) == Some(seq(n, _ => BlankLine))
    decreases n
  {
    if n > 0 {
      var s := Repeat('\n', n);
      assert s[1..] == Repeat('\n', n - 1);
      BlankDocument(n - 1);
      assert seq(n, _ => BlankLine) == [BlankLine] + seq(n - 1, _ => BlankLine);
    }
  }

  // ---------------------------------------------------------------- examples

  /** The marker's level is the `#` count, also beyond 6. */
  lemma SevenHashes()
    ensures var r := ParseBlock("####### a\n");
            r.Some? && r.value.0.Heading? && r.value.0.level == 7
  {
    assert "####### a\n" == Repeat('#', 7) + (" " + "a\n");
    HeadingTotal(7, " ", "a\n");
  }

  /** "```" that does not begin a verbatim token opens a code block. */
  lemma CodeDispatch(s: string)
    requires |s| >= 3 && s[..3] == Fence && Verbatim.Match(s).None?
    ensures ParseBlock(s) == ParseCodeBlock(s)
  {
    assert s[0] == '`';
  }

  /** A code block with no closing marker is a syntax error. */
  lemma UnterminatedCode()
    ensures ParseBlock("```\nx\n") == None
  {
    var s := "```\nx\n";
    var t := "\nx\n";
    assert s == Fence + t;
    SpanConcat(Verbatim.IsTick, Fence, t);
    assert s[3..] == t;
    assert Verbatim.CloserAt(3, t) == None;
    CodeDispatch(s);
    CodeUnterminated();
  }

  lemma CodeUnterminated()
    ensures ParseCodeBlock("```\nx\n") == None
  {
  }

  /** Text without a newline that starts neither a heading nor a code block is
      no block: the last line of a paragraph needs its newline. */
  lemma MissingNewline(s: string)
    requires s != [] && s[0] != '#' && s[0] != '`'
    requires forall i :: 0 <= i < |s| ==> s[i] != '\n'
    ensures ParseBlock(s) == None
  {
    InlineParse.LineTotal(s);
  }

  /** "```", verbatim content and "```" at the start of a block are a verbatim
      token in a paragraph, not a code block. */
  lemma FenceThatIsVerbatim(c: string)
    requires Verbatim.IsContent(3, c)
    ensures var r := ParseBlock(Fence + c + Fence + "\n");
            r.Some? && r.value.0.Paragraph?
  {
    var s := Fence + c + Fence + "\n";
    assert Fence == Verbatim.Ticks(3);
    assert s == Verbatim.Ticks(3) + (c + (Verbatim.Ticks(3) + "\n"));
    Verbatim.MatchComplete(3, c, "\n");
    assert s[0] == '`' && s[|s| - 1] == '\n';
    ParagraphTotal(s);
  }

}
