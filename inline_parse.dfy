/** The parser's choice among the inline derivations (grammar.js:9-12, 132-138).

    Every `_` and `*` may open, close or stay literal, and the grammar declares
    these conflicts so that the runtime keeps every alternative alive; in the
    end it takes the parse with the highest total dynamic precedence, that is,
    the fewest literals (`prec.dynamic(-100)` on `_fallback` and
    `_fallback_star`). The model makes that choice explicit: `BestRun` and
    `BestItem` search all derivations of a run that ends at a given point, and
    `ParseLine` all derivations of a line. The results are derivations
    (`BestRunSound`), and no derivation has fewer literals (`RunOptimal`).

    Among parses with equally few literals the search prefers, at the first item
    where they differ, a span to a literal, and a shorter span to a longer one. */
module InlineParse {
  import opened Common
  import Attributes
  import Verbatim
  import opened Inline

  /** The better of two candidate runs: the one with fewer literals, the first on
      a tie. */
  function BetterRun(a: Option<seq<Node>>, b: Option<seq<Node>>): (r: Option<seq<Node>>)
    ensures r == a || r == b
    ensures r.Some? <==> a.Some? || b.Some?
    ensures a.Some? ==> r.Some? && LiteralsSeq(r.value) <= LiteralsSeq(a.value)
    ensures b.Some? ==> r.Some? && LiteralsSeq(r.value) <= LiteralsSeq(b.value)
  {
    if a.None? then b
    else if b.None? then a
    else if LiteralsSeq(b.value) < LiteralsSeq(a.value) then b
    else a
  }

  /** The better of two candidate items, in the same sense. */
  function BetterItem(a: Option<Node>, b: Option<Node>): (r: Option<Node>)
    ensures r == a || r == b
    ensures r.Some? <==> a.Some? || b.Some?
    ensures a.Some? ==> r.Some? && Literals(r.value) <= Literals(a.value)
    ensures b.Some? ==> r.Some? && Literals(r.value) <= Literals(b.value)
  {
    if a.None? then b
    else if b.None? then a
    else if Literals(b.value) < Literals(a.value) then b
    else a
  }

  // ---------------------------------------------------------------- the search

  /** The run with the fewest literals among those derived at the start of `t`
      in context `c` that end `j` characters before the end of `t`. */
  function BestRun(t: string, c: Option<char>, j: nat, first: bool): Option<seq<Node>>
    requires j <= |t|
    decreases |t| - j, 5, 0
  {
    if !first && j == |t| && Ends(t, c) then Some([])
    else if j == |t| || (!first && Forced(t, c)) then None
    else BetterRun(RunScan(t, c, j, |t| - 2), RunCand(t, c, j, |t| - 1))
  }

  /** The best run whose first item ends `k` characters before the end of `t`,
      for `j <= k <= bound`, the items ending last tried first. */
  function RunScan(t: string, c: Option<char>, j: nat, bound: int): Option<seq<Node>>
    requires j <= |t| && j - 1 <= bound < |t|
    decreases |t| - j, 4, bound - j + 1
  {
    if bound < j then None
    else BetterRun(RunCand(t, c, j, bound), RunScan(t, c, j, bound - 1))
  }

  /** The best run whose first item ends `k` characters before the end of `t`. */
  function RunCand(t: string, c: Option<char>, j: nat, k: nat): Option<seq<Node>>
    requires j <= k < |t|
    decreases |t| - j, 3, 0
  {
    var f := BestItem(t, k);
    var more := BestRun(Suffix(t, k), c, j, false);
    if f.None? || more.None? then None else Some([f.value] + more.value)
  }

  /** The item with the fewest literals among those derived at the start of `t`
      that end `k` characters before the end of `t`. */
  function BestItem(t: string, k: nat): Option<Node>
    requires k < |t|
    decreases |t| - k, 2, 0
  {
    if t[0] == '\n' then None
    else if t[0] == '`' then
      var m := Verbatim.Match(t);
      if m.Some? then
        if |m.value.2| == k then Some(VerbatimSpan(m.value.0, m.value.1)) else None
      else if k == |t| - 1 then Some(Text('`'))
      else None
    else if IsDelim(t[0]) then
      if k == |t| - 1 then Some(Fallback(t[0])) else SpanScan(t, k, |t| - 2)
    else if k == |t| - 1 then Some(Text(t[0]))
    else None
  }

  /** The best span opened at the start of `t` whose closer starts `q`
      characters before the end of `t`, for `k < q <= bound`, the nearest closer
      tried first. */
  function SpanScan(t: string, k: nat, bound: int): Option<Node>
    requires k < |t| && bound <= |t| - 2
    decreases |t| - k, 1, bound - k
  {
    if bound <= k then None
    else BetterItem(SpanCand(t, k, bound), SpanScan(t, k, bound - 1))
  }

  /** The best span opened at the start of `t` and closed `q` characters before
      the end of `t`, when its attributes end `k` characters before it. */
  function SpanCand(t: string, k: nat, q: nat): Option<Node>
    requires k < q <= |t| - 2
    decreases |t| - k, 0, 0
  {
    var d := t[0];
    var close := Suffix(t, q);
    if !ClosesAt(close, d) then None
    else
      var after := CloserAttrs(close);
      if |after.1| != k then None
      else
        var inner := BestRun(t[1..], Some(d), q, true);
        if inner.None? then None else Some(Delimited(d, inner.value, after.0))
  }

  // ---------------------------------------------------------------- lines

  /** The best derivation of a line's run among those ending `j` characters
      before the end of `t`, for `j <= bound`. */
  function LineScan(t: string, bound: int): Option<(seq<Node>, string)>
    requires bound <= |t|
    decreases bound + 1
  {
    if bound < 0 then None
    else
      var b := BestRun(t, None, bound, false);
      var best := LineScan(t, bound - 1);
      if b.None? then best
      else if best.Some? && LiteralsSeq(best.value.0) < LiteralsSeq(b.value) then best
      else Some((b.value, Suffix(t, bound)))
  }

  /** Every delimiter a literal: a derivation that every line has. */
  function LiteralRun(t: string): (r: (seq<Node>, string))
    decreases |t|
  {
    if t == [] || t[0] == '\n' then ([], t)
    else
      var n := LiteralItem(t);
      var more := LiteralRun(n.1);
      ([n.0] + more.0, more.1)
  }

  function LiteralItem(t: string): (r: (Node, string))
    requires t != [] && t[0] != '\n'
    ensures Derives(t, r.0, r.1) && |r.1| < |t|
  {
    var m := Verbatim.Match(t);
    if t[0] == '`' && m.Some? then
      DerivesText(t, VerbatimSpan(m.value.0, m.value.1), m.value.2);
      (VerbatimSpan(m.value.0, m.value.1), m.value.2)
    else if IsDelim(t[0]) then
      assert t == [t[0]] + t[1..];
      (Fallback(t[0]), t[1..])
    else
      assert t == [t[0]] + t[1..];
      (Text(t[0]), t[1..])
  }

  /** The inline run at the start of `t`, up to the end of the input or a newline:
      the derivation with the fewest literals. */
  function ParseLine(t: string): (r: (seq<Node>, string))
    ensures DerivesRun(t, None, r.0, r.1, false)
    ensures t == RenderSeq(r.0, r.1) && |r.1| <= |t|
    ensures r.1 == [] || r.1[0] == '\n'
    ensures t != [] && t[0] != '\n' ==> r.0 != []
  {
    var w := LiteralRun(t);
    LiteralRunDerives(t);
    RunOptimal(t, None, w.0, w.1, false);
    LineScanCovers(t, |t|, |w.1|);
    LineScanSound(t, |t|);
    var r := LineScan(t, |t|).value;
    DerivesRunText(t, None, r.0, r.1, false);
    RunStart(t, None, r.0, r.1);
    r
  }

  // ---------------------------------------------------------------- soundness

  lemma {:induction false} BestRunSound(t: string, c: Option<char>, j: nat, first: bool)
    requires j <= |t|
    ensures BestRun(t, c, j, first).Some? ==>
              DerivesRun(t, c, BestRun(t, c, j, first).value, Suffix(t, j), first)
    decreases |t| - j, 5, 0
  {
    if !first && j == |t| && Ends(t, c) {
    } else if j == |t| || (!first && Forced(t, c)) {
    } else {
      RunScanSound(t, c, j, |t| - 2, first);
      RunCandSound(t, c, j, |t| - 1, first);
    }
  }

  lemma {:induction false} RunScanSound(t: string, c: Option<char>, j: nat, bound: int, first: bool)
    requires j <= |t| && j - 1 <= bound < |t|
    requires first || !Forced(t, c)
    ensures RunScan(t, c, j, bound).Some? ==>
              DerivesRun(t, c, RunScan(t, c, j, bound).value, Suffix(t, j), first)
    decreases |t| - j, 4, bound - j + 1
  {
    if bound >= j {
      RunCandSound(t, c, j, bound, first);
      RunScanSound(t, c, j, bound - 1, first);
    }
  }

  lemma {:induction false} RunCandSound(t: string, c: Option<char>, j: nat, k: nat, first: bool)
    requires j <= k < |t|
    requires first || !Forced(t, c)
    ensures RunCand(t, c, j, k).Some? ==>
              DerivesRun(t, c, RunCand(t, c, j, k).value, Suffix(t, j), first)
    decreases |t| - j, 3, 0
  {
    var f := BestItem(t, k);
    var u := Suffix(t, k);
    var more := BestRun(u, c, j, false);
    if f.Some? && more.Some? {
      BestItemSound(t, k);
      BestRunSound(u, c, j, false);
      SuffixOfSuffix(t, k, j);
      DerivesRunText(u, c, more.value, Suffix(t, j), false);
      var ns := [f.value] + more.value;
      assert ns[0] == f.value && ns[1..] == more.value;
    }
  }

  lemma {:induction false} BestItemSound(t: string, k: nat)
    requires k < |t|
    ensures BestItem(t, k).Some? ==> Derives(t, BestItem(t, k).value, Suffix(t, k))
    decreases |t| - k, 2, 0
  {
    if t[0] == '\n' {
    } else if t[0] == '`' {
      var m := Verbatim.Match(t);
      if m.Some? {
        if |m.value.2| == k {
          var tk := Verbatim.Ticks(m.value.0);
          RenderEndsWith(VerbatimSpan(m.value.0, m.value.1), m.value.2);
        }
      } else {
        assert t == [t[0]] + Suffix(t, |t| - 1);
      }
    } else if IsDelim(t[0]) {
      if k == |t| - 1 {
        assert t == [t[0]] + Suffix(t, k);
      } else {
        SpanScanSound(t, k, |t| - 2);
      }
    } else {
      assert t == [t[0]] + Suffix(t, |t| - 1);
    }
  }

  lemma {:induction false} SpanScanSound(t: string, k: nat, bound: int)
    requires k < |t| && bound <= |t| - 2 && IsDelim(t[0])
    ensures SpanScan(t, k, bound).Some? ==> Derives(t, SpanScan(t, k, bound).value, Suffix(t, k))
    decreases |t| - k, 1, bound - k
  {
    if bound > k {
      SpanCandSound(t, k, bound);
      SpanScanSound(t, k, bound - 1);
    }
  }

  lemma {:induction false} SpanCandSound(t: string, k: nat, q: nat)
    requires k < q <= |t| - 2 && IsDelim(t[0])
    ensures SpanCand(t, k, q).Some? ==> Derives(t, SpanCand(t, k, q).value, Suffix(t, k))
    decreases |t| - k, 0, 0
  {
    var d := t[0];
    var close := Suffix(t, q);
    if ClosesAt(close, d) {
      var after := CloserAttrs(close);
      if |after.1| == k {
        var inner := BestRun(t[1..], Some(d), q, true);
        if inner.Some? {
          BestRunSound(t[1..], Some(d), q, true);
          assert Suffix(t[1..], q) == close;
          assert after.1 == Suffix(close, k);
          SuffixOfSuffix(t, q, k);
          assert close == [d] + Attributes.RenderOptional(after.0, Suffix(t, k));
        }
      }
    }
  }

  lemma {:induction false} LineScanSound(t: string, bound: int)
    requires bound <= |t|
    ensures LineScan(t, bound).Some? ==>
              DerivesRun(t, None, LineScan(t, bound).value.0, LineScan(t, bound).value.1, false)
    decreases bound + 1
  {
    if bound >= 0 {
      BestRunSound(t, None, bound, false);
      LineScanSound(t, bound - 1);
    }
  }

  lemma {:induction false} LiteralRunDerives(t: string)
    ensures DerivesRun(t, None, LiteralRun(t).0, LiteralRun(t).1, false)
    decreases |t|
  {
    if t != [] && t[0] != '\n' {
      var n := LiteralItem(t);
      var more := LiteralRun(n.1);
      LiteralRunDerives(n.1);
      DerivesRunText(n.1, None, more.0, more.1, false);
      var ns := [n.0] + more.0;
      assert ns[0] == n.0 && ns[1..] == more.0;
    }
  }

  /** A derived run that does not start at a point where it must end is not
      empty. */
  lemma RunStart(t: string, c: Option<char>, ns: seq<Node>, rest: string)
    requires DerivesRun(t, c, ns, rest, false)
    ensures ns == [] ==> Ends(t, c)
  {
  }

  // ---------------------------------------------------------------- optimality

  lemma RunScanCovers(t: string, c: Option<char>, j: nat, bound: int, k: nat)
    requires j <= k <= bound < |t|
    requires RunCand(t, c, j, k).Some?
    ensures RunScan(t, c, j, bound).Some?
    ensures LiteralsSeq(RunScan(t, c, j, bound).value) <= LiteralsSeq(RunCand(t, c, j, k).value)
  {
    var ns := RunCand(t, c, j, k).value;
    var b := k;
    RunScanStep(t, c, j, k);
    while b < bound
      invariant k <= b <= bound
      invariant RunScan(t, c, j, b).Some? && LiteralsSeq(RunScan(t, c, j, b).value) <= LiteralsSeq(ns)
    {
      b := b + 1;
      RunScanStep(t, c, j, b);
    }
  }

  lemma RunScanStep(t: string, c: Option<char>, j: nat, bound: int)
    requires j <= bound < |t|
    ensures RunScan(t, c, j, bound) == BetterRun(RunCand(t, c, j, bound), RunScan(t, c, j, bound - 1))
  {
  }

  lemma SpanScanCovers(t: string, k: nat, bound: int, q: nat)
    requires k < q <= bound <= |t| - 2
    requires SpanCand(t, k, q).Some?
    ensures SpanScan(t, k, bound).Some?
    ensures Literals(SpanScan(t, k, bound).value) <= Literals(SpanCand(t, k, q).value)
  {
    var n := SpanCand(t, k, q).value;
    var b := q;
    SpanScanStep(t, k, q);
    while b < bound
      invariant q <= b <= bound
      invariant SpanScan(t, k, b).Some? && Literals(SpanScan(t, k, b).value) <= Literals(n)
    {
      b := b + 1;
      SpanScanStep(t, k, b);
    }
  }

  lemma SpanScanStep(t: string, k: nat, bound: int)
    requires k < bound <= |t| - 2
    ensures SpanScan(t, k, bound) == BetterItem(SpanCand(t, k, bound), SpanScan(t, k, bound - 1))
  {
  }

  lemma LineScanCovers(t: string, bound: int, j: nat)
    requires j <= bound <= |t|
    requires BestRun(t, None, j, false).Some?
    ensures LineScan(t, bound).Some?
    ensures LiteralsSeq(LineScan(t, bound).value.0) <= LiteralsSeq(BestRun(t, None, j, false).value)
  {
    var ns := BestRun(t, None, j, false).value;
    var b := j;
    LineScanStep(t, j);
    while b < bound
      invariant j <= b <= bound
      invariant LineScan(t, b).Some? && LiteralsSeq(LineScan(t, b).value.0) <= LiteralsSeq(ns)
    {
      b := b + 1;
      LineScanStep(t, b);
    }
  }

  /** One step of the line scan keeps the better of its two candidates. */
  lemma LineScanStep(t: string, bound: int)
    requires 0 <= bound <= |t|
    ensures var b, best := BestRun(t, None, bound, false), LineScan(t, bound - 1);
            && LineScan(t, bound).Some? == (b.Some? || best.Some?)
            && (b.Some? ==> LiteralsSeq(LineScan(t, bound).value.0) <= LiteralsSeq(b.value))
            && (best.Some? ==> LiteralsSeq(LineScan(t, bound).value.0) <= LiteralsSeq(best.value.0))
  {
  }

  /** No derived item has fewer literals than the one the search picks. */
  lemma {:induction false} ItemOptimal(t: string, n: Node, rest: string)
    requires Derives(t, n, rest)
    ensures |rest| < |t| && BestItem(t, |rest|).Some?
    ensures Literals(BestItem(t, |rest|).value) <= Literals(n)
    decreases n, 2
  {
    DerivesText(t, n, rest);
    var k := |rest|;
    match n
    case Text(_) =>
    case Fallback(_) =>
    case VerbatimSpan(f, _) =>
      Verbatim.MatchSound(t);
      assert t[0] == Verbatim.Ticks(f)[0];
    case Delimited(_, _, _) =>
      SpanOptimal(t, n, rest);
  }

  /** The span case of `ItemOptimal`: the search tries the closer the span uses. */
  lemma {:induction false} SpanOptimal(t: string, n: Node, rest: string)
    requires n.Delimited? && Derives(t, n, rest)
    ensures |rest| < |t| && BestItem(t, |rest|).Some?
    ensures Literals(BestItem(t, |rest|).value) <= Literals(n)
    decreases n, 1
  {
    var q := SpanHit(t, n, rest);
    var k := |rest|;
    SpanScanCovers(t, k, |t| - 2, q);
    assert BestItem(t, k) == SpanScan(t, k, |t| - 2);
  }

  /** The closer a derived span uses is one the span search tries, and the best
      inner run there has no more literals than the span's own. */
  lemma {:induction false} SpanHit(t: string, n: Node, rest: string) returns (q: nat)
    requires n.Delimited? && Derives(t, n, rest)
    ensures |rest| < q <= |t| - 2 && t[0] == n.delim
    ensures SpanCand(t, |rest|, q).Some?
    ensures Literals(SpanCand(t, |rest|, q).value) <= Literals(n)
    decreases n, 0
  {
    var d, ch, a := n.delim, n.children, n.attrs;
    var close := [d] + Attributes.RenderOptional(a, rest);
    var u := t[1..];
    q := |close|;
    RunOptimal(u, Some(d), ch, close, true);
    DerivesRunText(u, Some(d), ch, close, true);
    RenderSeqEndsWith(ch, close);
    Attributes.OptionalEndsWith(a, rest);
    assert close == Suffix(u, q);
    SuffixOfSuffix(t, |u|, q);
    assert close == Suffix(t, q);
    var inner := BestRun(u, Some(d), q, true);
    assert SpanCand(t, |rest|, q) == Some(Delimited(d, inner.value, a));
  }

  /** No derived run has fewer literals than the one the search picks. */
  lemma {:induction false} RunOptimal(t: string, c: Option<char>, ns: seq<Node>, rest: string, first: bool)
    requires DerivesRun(t, c, ns, rest, first)
    ensures |rest| <= |t| && BestRun(t, c, |rest|, first).Some?
    ensures LiteralsSeq(BestRun(t, c, |rest|, first).value) <= LiteralsSeq(ns)
    decreases ns, 0
  {
    DerivesRunText(t, c, ns, rest, first);
    if ns != [] {
      var j := |rest|;
      var u := RenderSeq(ns[1..], rest);
      ItemOptimal(t, ns[0], u);
      RunOptimal(u, c, ns[1..], rest, false);
      DerivesText(t, ns[0], u);
      RenderEndsWith(ns[0], u);
      var k := |u|;
      assert u == Suffix(t, k);
      var f := BestItem(t, k).value;
      var more := BestRun(u, c, j, false).value;
      assert RunCand(t, c, j, k) == Some([f] + more);
      LiteralsCons(f, more);
      RunPick(t, c, j, first, k);
    }
  }

  /** The search over the first item covers every end of it. */
  lemma RunPick(t: string, c: Option<char>, j: nat, first: bool, k: nat)
    requires j <= k < |t| && (first || !Forced(t, c))
    requires RunCand(t, c, j, k).Some?
    ensures BestRun(t, c, j, first).Some?
    ensures LiteralsSeq(BestRun(t, c, j, first).value) <= LiteralsSeq(RunCand(t, c, j, k).value)
  {
    if k < |t| - 1 {
      RunScanCovers(t, c, j, |t| - 2, k);
    }
  }

  /** The line parser picks a derivation with the fewest literals: no derivation
      of the same line leaves fewer delimiters literal. */
  lemma LineOptimal(t: string, ns: seq<Node>, rest: string)
    requires DerivesRun(t, None, ns, rest, false)
    ensures LiteralsSeq(ParseLine(t).0) <= LiteralsSeq(ns)
  {
    RunOptimal(t, None, ns, rest, false);
    LineScanCovers(t, |t|, |rest|);
    var w := LiteralRun(t);
    LiteralRunDerives(t);
    RunOptimal(t, None, w.0, w.1, false);
    LineScanCovers(t, |t|, |w.1|);
  }

  // ---------------------------------------------------------------- line facts

  /** Any text without a newline is one run up to the end of the input, with at
      least one item when the text is not empty. */
  lemma LineTotal(t: string)
    requires forall i :: 0 <= i < |t| ==> t[i] != '\n'
    ensures ParseLine(t).1 == []
    ensures t != [] ==> ParseLine(t).0 != []
  {
    var r := ParseLine(t);
    RenderSeqEndsWith(r.0, r.1);
    AbsentFromSuffix(t, r.1, '\n');
  }

  /** A run that consumes the whole of a non-empty text leaves it ending with
      something other than a newline. */
  lemma ConsumedAll(t: string)
    ensures t != [] && ParseLine(t).1 == [] ==> t[|t| - 1] != '\n'
  {
    var r := ParseLine(t);
    if t != [] && r.1 == [] {
      DerivesRunWF(t, None, r.0, r.1, false);
      RunLast(r.0);
    }
  }
}
