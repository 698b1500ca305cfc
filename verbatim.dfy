/** Verbatim spans (grammar.js, rule `verbatim`): the single token
    `N backticks, content, N backticks` for N from 1 to 4.

    For fence length N the content regex is `[^`\n]` followed by any number of
    pieces, each of them `[^`\n]` or a run of k backticks (1 <= k < N) followed by
    one character that is not a backtick. `Pieces` is that regex written as a
    recursive predicate, `Match` is the lexer's scan, and `ContentShape` states the
    same language declaratively. */
module Verbatim {
  import opened Common

  predicate IsTick(c: char) { c == '`' }

  /** `n` backticks. */
  function Ticks(n: nat): (r: string)
    ensures |r| == n && All(IsTick, r)
  {
    Repeat('`', n)
  }

  // ---------------------------------------------------------------- the regex

  /** The repeated part of the content regex for fence length `n`: the text is a
      sequence of pieces, each a character that is neither a backtick nor a
      newline, or a whole run of fewer than `n` backticks together with the
      character after it, which ends the run. */
  predicate Pieces(n: nat, c: string)
    decreases |c|
  {
    if c == [] then true
    else if c[0] != '`' then c[0] != '\n' && Pieces(n, c[1..])
    else
      var k := Span(IsTick, c);
      k < n && k < |c| && Pieces(n, c[k + 1..])
  }

  /** Content of a verbatim span fenced by `n` backticks: a first character that
      is neither a backtick nor a newline, then pieces. */
  predicate IsContent(n: nat, c: string) {
    c != [] && c[0] != '`' && Pieces(n, c)
  }

  // ---------------------------------------------------------------- scanning

  /** Scans pieces up to the first run of at least `n` backticks and returns the
      length of the pieces, that is, the position of the closing fence. */
  function CloserAt(n: nat, t: string): (r: Option<nat>)
    requires n >= 1
    ensures r.Some? ==> r.value + n <= |t|
    decreases |t|
  {
    if t == [] || t[0] == '\n' then None
    else if t[0] != '`' then
      var r := CloserAt(n, t[1..]);
      if r.None? then None else Some(1 + r.value)
    else
      var k := Span(IsTick, t);
      if k >= n then Some(0)
      else if k == |t| then None
      else
        var r := CloserAt(n, t[k + 1..]);
        if r.None? then None else Some(k + 1 + r.value)
  }

  /** The `verbatim` token at the start of `s`: the fence length, the content and
      the text after the closing fence. The opening fence is the whole leading run
      of backticks, because the content cannot start with one. */
  function Match(s: string): (r: Option<(nat, string, string)>)
    ensures r.Some? ==> s == Ticks(r.value.0) + (r.value.1 + (Ticks(r.value.0) + r.value.2))
  {
    var n := Span(IsTick, s);
    if n < 1 || 4 < n then None
    else
      var t := s[n..];
      var j := CloserAt(n, t);
      if j.None? then None
      else
        var c, rest := t[..j.value], t[j.value + n..];
        CloserIsFence(n, t);
        SpanProps(IsTick, s);
        assert s[..n] == Ticks(n);
        assert t == c + (t[j.value..j.value + n] + rest);
        assert s == s[..n] + t;
        Some((n, c, rest))
  }

  // ---------------------------------------------------------------- soundness

  lemma CloserIsFenceRun(n: nat, t: string)
    requires n >= 1 && t != [] && t[0] == '`' && Span(IsTick, t) >= n
    ensures CloserAt(n, t) == Some(0) && t[..n] == Ticks(n)
  {
    SpanProps(IsTick, t);
  }

  /** The scan stops at `n` backticks. */
  lemma {:induction false} CloserIsFence(n: nat, t: string)
    requires n >= 1 && CloserAt(n, t).Some?
    ensures var j := CloserAt(n, t).value; t[j..j + n] == Ticks(n)
    decreases |t|
  {
    var j := CloserAt(n, t).value;
    if t[0] != '`' {
      var j' := CloserAt(n, t[1..]).value;
      assert j == 1 + j';
      CloserIsFence(n, t[1..]);
      assert t[j..j + n] == t[1..][j'..j' + n];
    } else {
      var k := Span(IsTick, t);
      if k >= n {
        CloserIsFenceRun(n, t);
      } else {
        var j' := CloserAt(n, t[k + 1..]).value;
        assert j == k + 1 + j';
        CloserIsFence(n, t[k + 1..]);
        assert t[j..j + n] == t[k + 1..][j'..j' + n];
      }
    }
  }

  /** A character other than a backtick or a newline, followed by pieces. */
  lemma PiecesChar(n: nat, x: char, c: string)
    requires x != '`' && x != '\n' && Pieces(n, c)
    ensures Pieces(n, [x] + c)
  {
    assert ([x] + c)[1..] == c;
  }

  /** A run of fewer than `n` backticks and the character that ends it, followed by pieces. */
  lemma PiecesRun(n: nat, r: string, x: char, c: string)
    requires All(IsTick, r) && 1 <= |r| < n && x != '`' && Pieces(n, c)
    ensures Pieces(n, r + ([x] + c))
  {
    var t := r + ([x] + c);
    SpanConcat(IsTick, r, [x] + c);
    assert t[|r| + 1..] == c;
  }

  lemma ScanSoundChar(n: nat, t: string, j': nat)
    requires n >= 1 && t != [] && t[0] != '`' && t[0] != '\n'
    requires j' <= |t| - 1 && Pieces(n, t[1..][..j'])
    ensures Pieces(n, t[..1 + j'])
  {
    assert t[..1 + j'] == [t[0]] + t[1..][..j'];
    PiecesChar(n, t[0], t[1..][..j']);
  }

  lemma ScanSoundRun(n: nat, t: string, k: nat, j': nat)
    requires n >= 1 && 1 <= k < n && k < |t| && All(IsTick, t[..k]) && t[k] != '`'
    requires j' <= |t| - k - 1 && Pieces(n, t[k + 1..][..j'])
    ensures Pieces(n, t[..k + 1 + j'])
  {
    var c' := t[k + 1..][..j'];
    assert t[..k + 1 + j'] == t[..k] + ([t[k]] + c');
    PiecesRun(n, t[..k], t[k], c');
  }

  lemma {:induction false} ScanSound(n: nat, t: string)
    requires n >= 1 && CloserAt(n, t).Some?
    ensures Pieces(n, t[..CloserAt(n, t).value])
    decreases |t|
  {
    var j := CloserAt(n, t).value;
    if t[0] != '`' {
      var j' := CloserAt(n, t[1..]).value;
      assert j == 1 + j';
      ScanSound(n, t[1..]);
      ScanSoundChar(n, t, j');
    } else {
      var k := Span(IsTick, t);
      if k < n {
        var j' := CloserAt(n, t[k + 1..]).value;
        assert j == k + 1 + j';
        ScanSound(n, t[k + 1..]);
        SpanProps(IsTick, t);
        ScanSoundRun(n, t, k, j');
      } else {
        CloserIsFenceRun(n, t);
      }
    }
  }

  /** Whatever the lexer takes as a verbatim token has a fence of 1 to 4 backticks
      and well-formed content. */
  lemma MatchSound(s: string)
    requires Match(s).Some?
    ensures var (n, c, _) := Match(s).value;
      1 <= n <= 4 && IsContent(n, c)
  {
    var n := Span(IsTick, s);
    SpanProps(IsTick, s);
    ScanSound(n, s[n..]);
  }

  // ---------------------------------------------------------------- completeness

  lemma ScanCompleteRun(n: nat, c: string, x: string, k: nat)
    requires n >= 1 && c != [] && c[0] == '`' && k == Span(IsTick, c) && k < n && k < |c|
    requires CloserAt(n, c[k + 1..] + x) == Some(|c| - k - 1)
    ensures CloserAt(n, c + x) == Some(|c|)
  {
    var t := c + x;
    assert t != [] && t[0] == '`';
    SpanPrefix(IsTick, c, x);
    assert t[k + 1..] == c[k + 1..] + x;
    assert CloserAt(n, t[k + 1..]) == Some(|c| - k - 1);
  }

  lemma {:induction false} ScanComplete(n: nat, c: string, rest: string)
    requires n >= 1 && Pieces(n, c)
    ensures CloserAt(n, c + (Ticks(n) + rest)) == Some(|c|)
    decreases |c|
  {
    var x := Ticks(n) + rest;
    var t := c + x;
    if c == [] {
      assert t == x;
      SpanAppend(IsTick, Ticks(n), rest);
    } else if c[0] != '`' {
      assert t[0] == c[0] && t[1..] == c[1..] + x;
      ScanComplete(n, c[1..], rest);
    } else {
      var k := Span(IsTick, c);
      ScanComplete(n, c[k + 1..], rest);
      ScanCompleteRun(n, c, x, k);
    }
  }

  /** Every well-formed verbatim span is read back from its text, whatever follows
      the closing fence: the span closes at the first `n` backticks of the first
      run of at least `n`, and extra backticks stay outside. */
  lemma MatchComplete(n: nat, c: string, rest: string)
    requires 1 <= n <= 4 && IsContent(n, c)
    ensures Match(Ticks(n) + (c + (Ticks(n) + rest))) == Some((n, c, rest))
  {
    var s := Ticks(n) + (c + (Ticks(n) + rest));
    var t := c + (Ticks(n) + rest);
    SpanConcat(IsTick, Ticks(n), t);
    assert s[n..] == t;
    ScanComplete(n, c, rest);
    assert t[..|c|] == c && t[|c| + n..] == rest;
  }

  /** The token regex matches a text in at most one way, so the longest-match rule
      has no choice to make: fence, content and the rest are determined. */
  lemma MatchUnique(n: nat, c: string, rest: string, n': nat, c': string, rest': string)
    requires 1 <= n <= 4 && IsContent(n, c)
    requires 1 <= n' <= 4 && IsContent(n', c')
    requires Ticks(n) + (c + (Ticks(n) + rest)) == Ticks(n') + (c' + (Ticks(n') + rest'))
    ensures n == n' && c == c' && rest == rest'
  {
    MatchComplete(n, c, rest);
    MatchComplete(n', c', rest');
  }

  // ---------------------------------------------------------------- declarative shape

  /** The content language stated without the regex: every backtick run is shorter
      than the fence, the text does not end with a backtick (so every run is
      followed by another character), and every newline comes right after a
      backtick. */
  predicate PiecesShape(n: nat, c: string) {
    && (c != [] ==> c[|c| - 1] != '`')
    && (forall i :: 0 <= i < |c| ==> Span(IsTick, c[i..]) < n)
    && (forall i :: 0 <= i < |c| && c[i] == '\n' ==> 0 < i && c[i - 1] == '`')
  }

  /** Verbatim content: non-empty, not starting with a backtick, and of the shape above. */
  predicate ContentShape(n: nat, c: string) {
    c != [] && c[0] != '`' && PiecesShape(n, c)
  }

  /** `Span(IsTick, ·)` from a position inside a run of backticks counts to the end
      of the run. */
  lemma RunFrom(c: string, i: nat, k: nat)
    requires i <= k < |c| && All(IsTick, c[..k]) && c[k] != '`'
    ensures Span(IsTick, c[i..]) == k - i
  {
    assert c[i..] == c[i..k] + c[k..];
    assert All(IsTick, c[i..k]) by {
      assert forall j :: 0 <= j < k - i ==> c[i..k][j] == c[..k][i + j];
    }
    SpanConcat(IsTick, c[i..k], c[k..]);
  }

  lemma PiecesShapeStep(n: nat, c: string, d: nat)
    requires 1 <= d <= |c| && PiecesShape(n, c[d..])
    requires d == |c| ==> c[|c| - 1] != '`'
    requires forall i :: 0 <= i < d ==> Span(IsTick, c[i..]) < n
    requires forall i :: 0 <= i < d && c[i] == '\n' ==> 0 < i && c[i - 1] == '`'
    ensures PiecesShape(n, c)
  {
    var c' := c[d..];
    forall i | d <= i < |c|
      ensures Span(IsTick, c[i..]) < n
      ensures c[i] == '\n' ==> 0 < i && c[i - 1] == '`'
    {
      assert c[i..] == c'[i - d..];
      if i > d && c[i] == '\n' {
        assert c'[i - d] == '\n';
      }
    }
    if d < |c| {
      assert c[|c| - 1] == c'[|c'| - 1];
    }
  }

  /** Inside a leading run of `k < n` backticks ended by another character, every
      run is shorter than `n` and a newline can only be that ending character. */
  lemma RunPrefixShape(n: nat, c: string, k: nat)
    requires 1 <= k < n && k < |c| && All(IsTick, c[..k]) && c[k] != '`'
    ensures forall i :: 0 <= i <= k ==> Span(IsTick, c[i..]) < n
    ensures forall i :: 0 <= i <= k && c[i] == '\n' ==> 0 < i && c[i - 1] == '`'
  {
    forall i | 0 <= i <= k
      ensures Span(IsTick, c[i..]) < n
      ensures c[i] == '\n' ==> 0 < i && c[i - 1] == '`'
    {
      RunFrom(c, i, k);
      if i < k {
        assert c[i] == c[..k][i];
      } else {
        assert c[k - 1] == c[..k][k - 1];
      }
    }
  }

  lemma PiecesToShapeTick(n: nat, c: string, k: nat)
    requires 1 <= k < n && k < |c| && All(IsTick, c[..k]) && c[k] != '`'
    requires PiecesShape(n, c[k + 1..])
    ensures PiecesShape(n, c)
  {
    RunPrefixShape(n, c, k);
    PiecesShapeStep(n, c, k + 1);
  }

  lemma {:induction false} PiecesToShape(n: nat, c: string)
    requires n >= 1 && Pieces(n, c)
    ensures PiecesShape(n, c)
    decreases |c|
  {
    if c == [] {
    } else if c[0] != '`' {
      PiecesToShape(n, c[1..]);
      assert Span(IsTick, c[0..]) == 0 by { assert c[0..] == c; }
      PiecesShapeStep(n, c, 1);
    } else {
      var k := Span(IsTick, c);
      SpanProps(IsTick, c);
      PiecesToShape(n, c[k + 1..]);
      PiecesToShapeTick(n, c, k);
    }
  }

  lemma {:induction false} ShapeToPieces(n: nat, c: string)
    requires n >= 1 && PiecesShape(n, c)
    ensures Pieces(n, c)
    decreases |c|
  {
    if c == [] {
    } else if c[0] != '`' {
      assert c[0] != '\n';
      PiecesShapeTail(n, c, 1);
      ShapeToPieces(n, c[1..]);
    } else {
      var k := Span(IsTick, c);
      assert c[0..] == c;
      SpanBeforeLast(IsTick, c);
      SpanProps(IsTick, c);
      PiecesShapeTail(n, c, k + 1);
      ShapeToPieces(n, c[k + 1..]);
    }
  }

  /** The recursive regex and the declarative shape agree (fence exactness and the
      position of newlines). */
  lemma PiecesIff(n: nat, c: string)
    requires n >= 1
    ensures Pieces(n, c) <==> PiecesShape(n, c)
  {
    if Pieces(n, c) {
      PiecesToShape(n, c);
    }
    if PiecesShape(n, c) {
      ShapeToPieces(n, c);
    }
  }

  lemma PiecesShapeTail(n: nat, c: string, d: nat)
    requires 1 <= d <= |c| && PiecesShape(n, c) && c[d - 1] != '`'
    ensures PiecesShape(n, c[d..])
  {
    var c' := c[d..];
    forall i | 0 <= i < |c'|
      ensures Span(IsTick, c'[i..]) < n
      ensures c'[i] == '\n' ==> 0 < i && c'[i - 1] == '`'
    {
      assert c'[i..] == c[d + i..];
    }
    if c' != [] {
      assert c'[|c'| - 1] == c[|c| - 1];
    }
  }

  /** The content of a verbatim span is exactly the declarative shape. */
  lemma ContentIff(n: nat, c: string)
    requires n >= 1
    ensures IsContent(n, c) <==> ContentShape(n, c)
  {
    PiecesIff(n, c);
  }

  /** Content edges: non-empty, first character neither a backtick nor a newline,
      last character not a backtick; under a single-backtick fence the content has
      no backtick and no newline at all. */
  lemma ContentEdges(n: nat, c: string)
    requires 1 <= n && IsContent(n, c)
    ensures |c| > 0 && c[0] != '`' && c[0] != '\n' && c[|c| - 1] != '`'
    ensures n == 1 ==> forall i :: 0 <= i < |c| ==> c[i] != '`' && c[i] != '\n'
  {
    ContentIff(n, c);
    if n == 1 {
      forall i | 0 <= i < |c|
        ensures c[i] != '`'
      {
        assert Span(IsTick, c[i..]) == 0;
        assert c[i..][0] == c[i];
      }
      forall i | 0 <= i < |c|
        ensures c[i] != '\n'
      {
        assert 0 < i ==> c[i - 1] != '`';
      }
    }
  }

  /** A verbatim two-backtick span may hold a single backtick. */
  lemma DoubleFenceHoldsSingleTick()
    ensures Match("``a`b``!") == Some((2, "a`b", "!"))
  {
    assert "``a`b``!" == Ticks(2) + ("a`b" + (Ticks(2) + "!"));
    assert Span(IsTick, "`b") == 1 by {
      assert "`b"[1..] == "b";
    }
    assert Pieces(2, "`b") by {
      assert "`b"[2..] == [];
    }
    assert Pieces(2, "a`b") by {
      assert "a`b"[1..] == "`b";
    }
    MatchComplete(2, "a`b", "!");
  }
}
