/** Shared vocabulary of the grammar: an option type, the character classes its
    regular expressions use, and the greedy "longest run" scan that every regex
    token of the form `[...]+` or `[...]*` performs. */
module Common {

  datatype Option<+T> = None | Some(value: T)

  /** The `\s` class of the grammar's regular expressions, taken to be the ASCII
      white space: space, tab, line feed, vertical tab, form feed and carriage
      return. */
  predicate IsWhitespace(c: char) {
    c == ' ' || c == '\t' || c == '\n' || c == '\U{B}' || c == '\U{C}' || c == '\r'
  }

  /** The class `[ \t]` of the heading marker. */
  predicate IsSpaceOrTab(c: char) {
    c == ' ' || c == '\t'
  }

  /** Every character of `s` belongs to the class `p`. */
  predicate All(p: char -> bool, s: string) {
    forall i :: 0 <= i < |s| ==> p(s[i])
  }

  /** Length of the longest prefix of `s` whose characters all satisfy `p`:
      what a greedy regex token `[p]*` consumes. */
  function Span(p: char -> bool, s: string): (n: nat)
    ensures n <= |s|
  {
    if s == [] || !p(s[0]) then 0 else 1 + Span(p, s[1..])
  }

  /** The scan takes only characters of the class, and stops only at the end of
      the input or before a character outside the class. */
  lemma {:induction false} SpanProps(p: char -> bool, s: string)
    ensures All(p, s[..Span(p, s)])
    ensures Span(p, s) < |s| ==> !p(s[Span(p, s)])
  {
    if s != [] && p(s[0]) {
      SpanProps(p, s[1..]);
      assert s[..Span(p, s)] == [s[0]] + s[1..][..Span(p, s[1..])];
    }
  }

  /** A scan over a run of `p` characters reads the whole run and goes on with
      whatever follows it. */
  lemma {:induction false} SpanAppend(p: char -> bool, x: string, y: string)
    requires All(p, x)
    ensures Span(p, x + y) == |x| + Span(p, y)
  {
    if x != [] {
      assert (x + y)[0] == x[0] && p(x[0]);
      assert (x + y)[1..] == x[1..] + y;
      SpanAppend(p, x[1..], y);
    } else {
      assert x + y == y;
    }
  }

  /** A greedy scan stops exactly at the end of a run of `p` characters when the
      next character is not in `p`. */
  lemma SpanConcat(p: char -> bool, x: string, y: string)
    requires All(p, x)
    requires y == [] || !p(y[0])
    ensures Span(p, x + y) == |x|
  {
    SpanAppend(p, x, y);
  }

  /** A scan that stops inside `x` is not affected by what follows `x`. */
  lemma {:induction false} SpanPrefix(p: char -> bool, x: string, y: string)
    requires Span(p, x) < |x|
    ensures Span(p, x + y) == Span(p, x)
  {
    if p(x[0]) {
      assert (x + y)[1..] == x[1..] + y;
      SpanPrefix(p, x[1..], y);
    }
  }

  /** A scan cannot run past a last character outside the class. */
  lemma {:induction false} SpanBeforeLast(p: char -> bool, s: string)
    requires s != [] && !p(s[|s| - 1])
    ensures Span(p, s) < |s|
  {
    if p(s[0]) && |s| > 1 {
      assert s[1..][|s| - 2] == s[|s| - 1];
      SpanBeforeLast(p, s[1..]);
    }
  }

  /** `t` ends with `k`. */
  predicate EndsWith(t: string, k: string) {
    |t| >= |k| && t[|t| - |k|..] == k
  }

  /** The last `j` characters of `t`. */
  function Suffix(t: string, j: nat): (r: string)
    requires j <= |t|
    ensures |r| == j && EndsWith(t, r)
  {
    t[|t| - j..]
  }

  lemma SuffixOfSuffix(t: string, k: nat, j: nat)
    requires j <= k <= |t|
    ensures Suffix(Suffix(t, k), j) == Suffix(t, j)
  {
  }

  lemma EndsWithTrans(t: string, u: string, k: string)
    requires EndsWith(t, u) && EndsWith(u, k)
    ensures EndsWith(t, k)
  {
    assert t[|t| - |k|..] == t[|t| - |u|..][|u| - |k|..];
  }

  /** `n` copies of the character `c`. */
  function Repeat(c: char, n: nat): (r: string)
    ensures |r| == n
    ensures forall i :: 0 <= i < n ==> r[i] == c
  {
    seq(n, _ => c)
  }

  /** The grammar's `extras` skip carriage returns; the model removes them
      from the input before parsing. */
  function RemoveCR(s: string): (r: string)
    ensures forall i :: 0 <= i < |r| ==> r[i] != '\r'
    ensures multiset(r) == multiset(s)[ '\r' := 0 ]
  {
    if s == [] then []
    else
      assert s == [s[0]] + s[1..];
      if s[0] == '\r' then RemoveCR(s[1..])
      else [s[0]] + RemoveCR(s[1..])
  }

  /** Filtering keeps the order: it works piece by piece, ... */
  lemma {:induction false} RemoveCRAppend(a: string, b: string)
    ensures RemoveCR(a + b) == RemoveCR(a) + RemoveCR(b)
    decreases |a|
  {
    if a != [] {
      assert (a + b)[0] == a[0] && (a + b)[1..] == a[1..] + b;
      RemoveCRAppend(a[1..], b);
    } else {
      assert a + b == b;
    }
  }

  /** ... and on one character keeps everything but a carriage return. */
  lemma RemoveCRChar(c: char)
    ensures RemoveCR([c]) == if c == '\r' then [] else [c]
  {
    assert [c][1..] == [];
  }

  /** Text without carriage returns is left as it is; in particular filtering
      twice is filtering once. */
  lemma {:induction false} RemoveCRNone(s: string)
    requires forall i :: 0 <= i < |s| ==> s[i] != '\r'
    ensures RemoveCR(s) == s
    decreases |s|
  {
    if s != [] {
      assert s[0] != '\r';
      RemoveCRNone(s[1..]);
      assert s == [s[0]] + s[1..];
    }
  }
}
