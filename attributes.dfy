/** Attribute spans `{#id .class key=value ...}` (grammar.js, rules `attributes`,
    `attribute_id`, `attribute_class`, `attribute_key_value`, `attribute_key`,
    `attribute_value_quoted`, `attribute_value_unquoted`).

    The tree is lossless: it keeps the optional whitespace after `{` and after each
    item, so `Render` gives back exactly the text that was parsed. Each renderer
    takes the text that follows (`k`) and returns the node's text followed by it. Each regex token
    is scanned greedily, as the lexer does; `SpanWF` states which trees a greedy
    lexer can produce, and together with `Render` it is the derivation relation of
    the rule. */
module Attributes {
  import opened Common

  datatype Value =
    | Quoted(quote: char, text: string)   // attribute_value_quoted
    | Unquoted(text: string)              // attribute_value_unquoted

  datatype Attr =
    | Id(name: string)                    // attribute_id:    "#" /[^\s}]+/
    | Class(name: string)                 // attribute_class: "." /[^\s}]+/
    | KeyValue(key: string, value: Value) // attribute_key_value

  /** One repeated item of the span with the optional whitespace after it. */
  datatype Item = Item(attr: Attr, gap: string)

  /** `{` optional whitespace, the items, `}`. */
  datatype AttrSpan = AttrSpan(lead: string, items: seq<Item>)

  // ---------------------------------------------------------------- classes

  /** `[^\s}]`: a character of an id or class name. */
  predicate IsNameChar(c: char) { !IsWhitespace(c) && c != '}' }

  /** `[a-zA-Z_:]`: the first character of a key. */
  predicate IsKeyStart(c: char) {
    ('a' <= c <= 'z') || ('A' <= c <= 'Z') || c == '_' || c == ':'
  }

  /** `[a-zA-Z0-9_:.-]`: a later character of a key. */
  predicate IsKeyChar(c: char) {
    IsKeyStart(c) || ('0' <= c <= '9') || c == '.' || c == '-'
  }

  /** `[^\s}'"]`: a character of an unquoted value. */
  predicate IsUnquotedChar(c: char) {
    !IsWhitespace(c) && c != '}' && c != '\'' && c != '"'
  }

  predicate IsQuote(c: char) { c == '"' || c == '\'' }

  // ---------------------------------------------------------------- shapes

  /** An id or class name: one or more characters that are neither whitespace nor `}`. */
  predicate IsName(s: string) { |s| > 0 && All(IsNameChar, s) }

  /** A key: `[a-zA-Z_:][a-zA-Z0-9_:.-]*`. */
  predicate IsKey(s: string) {
    |s| > 0 && IsKeyStart(s[0]) && All(IsKeyChar, s[1..])
  }

  /** A quoted value never contains its own quote character (there are no escapes);
      an unquoted value is non-empty and has no whitespace, `}`, `'` or `"`. */
  predicate ValueWF(v: Value) {
    match v
    case Quoted(q, t) => IsQuote(q) && forall i :: 0 <= i < |t| ==> t[i] != q
    case Unquoted(t) => |t| > 0 && All(IsUnquotedChar, t)
  }

  predicate AttrWF(a: Attr) {
    match a
    case Id(n) => IsName(n)
    case Class(n) => IsName(n)
    case KeyValue(k, v) => IsKey(k) && ValueWF(v)
  }

  /** The item ends in a greedy run (a name or an unquoted value), so the lexer
      would swallow any item written directly after it. */
  predicate EndsGreedy(a: Attr) {
    a.Id? || a.Class? || (a.KeyValue? && a.value.Unquoted?)
  }

  /** An item is well formed; unless it is the last one, an item that ends in a
      greedy run is followed by whitespace. */
  predicate ItemWF(it: Item, last: bool) {
    && AttrWF(it.attr)
    && All(IsWhitespace, it.gap)
    && (!last && EndsGreedy(it.attr) ==> it.gap != [])
  }

  predicate ItemsWF(items: seq<Item>) {
    items == [] || (ItemWF(items[0], |items| == 1) && ItemsWF(items[1..]))
  }

  predicate SpanWF(a: AttrSpan) {
    All(IsWhitespace, a.lead) && ItemsWF(a.items)
  }

  // ---------------------------------------------------------------- rendering

  function RenderValue(v: Value, k: string): string {
    match v
    case Quoted(q, t) => [q] + (t + ([q] + k))
    case Unquoted(t) => t + k
  }

  function RenderAttr(a: Attr, k: string): string {
    match a
    case Id(n) => "#" + (n + k)
    case Class(n) => "." + (n + k)
    case KeyValue(key, v) => key + ("=" + RenderValue(v, k))
  }

  function RenderItems(items: seq<Item>, k: string): string {
    if items == [] then k
    else RenderAttr(items[0].attr, items[0].gap + RenderItems(items[1..], k))
  }

  /** The text of the span followed by `k`. */
  function Render(a: AttrSpan, k: string): string {
    "{" + (a.lead + RenderItems(a.items, "}" + k))
  }

  /** An optional span followed by `k`. */
  function RenderOptional(a: Option<AttrSpan>, k: string): string {
    if a.None? then k else Render(a.value, k)
  }

  /** What the rendered text of a well-formed item must not be followed by, so that
      the greedy scan of its last token ends where the item ends. */
  predicate GreedyBoundary(a: Attr, rest: string) {
    match a
    case Id(_) => rest == [] || !IsNameChar(rest[0])
    case Class(_) => rest == [] || !IsNameChar(rest[0])
    case KeyValue(_, v) => v.Unquoted? ==> rest == [] || !IsUnquotedChar(rest[0])
  }

  // ---------------------------------------------------------------- parsing

  /** `attribute_value_quoted` or `attribute_value_unquoted`, chosen by the first character. */
  function ParseValue(t: string): (r: Option<(Value, string)>)
    ensures r.Some? ==> t == RenderValue(r.value.0, r.value.1)
  {
    if t == [] then None
    else if IsQuote(t[0]) then
      var q := t[0];
      var u := t[1..];
      var k := Span(c => c != q, u);
      if k < |u| && u[k] == q then
        assert u[k..] == [q] + u[k + 1..];
        assert u == u[..k] + u[k..];
        Some((Quoted(q, u[..k]), u[k + 1..]))
      else None
    else
      var k := Span(IsUnquotedChar, t);
      if k == 0 then None
      else
        assert t == t[..k] + t[k..];
        Some((Unquoted(t[..k]), t[k..]))
  }

  /** `attribute_id` or `attribute_class`: the marker and a greedy name. */
  function ParseName(t: string): (r: Option<(Attr, string)>)
    requires t != [] && (t[0] == '#' || t[0] == '.')
    ensures r.Some? ==> t == RenderAttr(r.value.0, r.value.1)
  {
    var u := t[1..];
    var k := Span(IsNameChar, u);
    if k == 0 then None
    else
      assert u == u[..k] + u[k..];
      assert t == [t[0]] + u;
      Some((if t[0] == '#' then Id(u[..k]) else Class(u[..k]), u[k..]))
  }

  /** `attribute_key_value`: a greedy key, `=`, and a value. */
  function ParseKeyValue(t: string): (r: Option<(Attr, string)>)
    requires t != []
    ensures r.Some? ==> t == RenderAttr(r.value.0, r.value.1)
  {
    var k := 1 + Span(IsKeyChar, t[1..]);
    var u := t[k..];
    if u != [] && u[0] == '=' then
      var pv := ParseValue(u[1..]);
      if pv.None? then None
      else
        assert u == "=" + u[1..];
        assert t == t[..k] + u;
        Some((KeyValue(t[..k], pv.value.0), pv.value.1))
    else None
  }

  /** One item: `attribute_id`, `attribute_class` or `attribute_key_value`. */
  function ParseAttr(t: string): (r: Option<(Attr, string)>)
    ensures r.Some? ==> t == RenderAttr(r.value.0, r.value.1)
  {
    if t == [] then None
    else if t[0] == '#' || t[0] == '.' then ParseName(t)
    else if IsKeyStart(t[0]) then ParseKeyValue(t)
    else None
  }

  /** One item and the optional whitespace after it. */
  function ParseItem(t: string): (r: Option<(Item, string)>)
    ensures r.Some? ==> |r.value.1| < |t|
    ensures r.Some? ==> t == RenderAttr(r.value.0.attr, r.value.0.gap + r.value.1)
  {
    var pa := ParseAttr(t);
    if pa.None? then None
    else
      var u := pa.value.1;
      var g := Span(IsWhitespace, u);
      assert u == u[..g] + u[g..];
      Some((Item(pa.value.0, u[..g]), u[g..]))
  }

  /** The repeated items of a span and the closing `}`. */
  function ParseItems(t: string): (r: Option<(seq<Item>, string)>)
    ensures r.Some? ==> |r.value.1| < |t|
    ensures r.Some? ==> t == RenderItems(r.value.0, "}" + r.value.1)
    decreases |t|
  {
    if t == [] then None
    else if t[0] == '}' then
      assert t == "}" + t[1..];
      Some(([], t[1..]))
    else
      var pi := ParseItem(t);
      if pi.None? then None
      else
        var pm := ParseItems(pi.value.1);
        if pm.None? then None
        else
          var it, more, rest := pi.value.0, pm.value.0, pm.value.1;
          ItemsCons(it, more, "}" + rest);
          Some(([it] + more, rest))
  }

  lemma ItemsCons(it: Item, more: seq<Item>, k: string)
    ensures RenderItems([it] + more, k) == RenderAttr(it.attr, it.gap + RenderItems(more, k))
  {
    assert ([it] + more)[0] == it && ([it] + more)[1..] == more;
  }

  /** The `attributes` rule: `{`, optional whitespace, items, `}`. Nothing is
      consumed unless the whole span is present. */
  function ParseAttributes(s: string): (r: Option<(AttrSpan, string)>)
    ensures r.Some? ==> |r.value.1| < |s|
    ensures r.Some? ==> s == Render(r.value.0, r.value.1)
  {
    if s == [] || s[0] != '{' then None
    else
      var u := s[1..];
      var w := Span(IsWhitespace, u);
      var lead, body := u[..w], u[w..];
      var pm := ParseItems(body);
      if pm.None? then None
      else
        var items, rest := pm.value.0, pm.value.1;
        assert s == "{" + (lead + body);
        Some((AttrSpan(lead, items), rest))
  }

  // ---------------------------------------------------------------- soundness

  lemma ParseValueSound(t: string)
    requires ParseValue(t).Some?
    ensures var (v, rest) := ParseValue(t).value;
      ValueWF(v) && (v.Unquoted? ==> rest == [] || !IsUnquotedChar(rest[0]))
  {
    if IsQuote(t[0]) {
      var q := t[0];
      SpanProps(c => c != q, t[1..]);
    } else {
      SpanProps(IsUnquotedChar, t);
    }
  }

  lemma ParseAttrSound(t: string)
    requires ParseAttr(t).Some?
    ensures var (a, rest) := ParseAttr(t).value;
      AttrWF(a) && GreedyBoundary(a, rest) && |rest| < |t|
  {
    if t[0] == '#' || t[0] == '.' {
      SpanProps(IsNameChar, t[1..]);
    } else {
      SpanProps(IsKeyChar, t[1..]);
      var k := 1 + Span(IsKeyChar, t[1..]);
      assert t[..k][1..] == t[1..][..k - 1];
      ParseValueSound(t[k + 1..]);
    }
  }

  /** A greedy item written without whitespace after it can only be the last one:
      its token stops before whitespace, `}` or a quote, and only `}` lets the span go on. */
  lemma GreedyItemIsLast(a: Attr, u: string)
    requires EndsGreedy(a) && GreedyBoundary(a, u)
    requires Span(IsWhitespace, u) == 0
    ensures u == [] || u[0] == '}' || ParseAttr(u).None?
  {
    SpanProps(IsWhitespace, u);
  }

  lemma {:induction false} ParseItemsSound(t: string)
    requires ParseItems(t).Some?
    ensures ItemsWF(ParseItems(t).value.0)
    decreases |t|
  {
    if t != [] && t[0] != '}' {
      var a, u := ParseAttr(t).value.0, ParseAttr(t).value.1;
      ParseAttrSound(t);
      var g := Span(IsWhitespace, u);
      SpanProps(IsWhitespace, u);
      assert ParseItem(t) == Some((Item(a, u[..g]), u[g..]));
      var more := ParseItems(u[g..]).value.0;
      ParseItemsSound(u[g..]);
      if g == 0 && EndsGreedy(a) {
        GreedyItemIsLast(a, u);
      }
      assert ([Item(a, u[..g])] + more)[1..] == more;
    }
  }

  /** Whatever the parser accepts is a derivation of the `attributes` rule: a
      well-formed tree whose text opens with `{` and closes with `}`. */
  lemma ParseAttributesSound(s: string)
    requires ParseAttributes(s).Some?
    ensures var (a, rest) := ParseAttributes(s).value;
      SpanWF(a) && s[0] == '{' && |s| - |rest| >= 2 && s[|s| - |rest| - 1] == '}'
  {
    SpanProps(IsWhitespace, s[1..]);
    var w := Span(IsWhitespace, s[1..]);
    ParseItemsSound(s[1..][w..]);
    var a, rest := ParseAttributes(s).value.0, ParseAttributes(s).value.1;
    var k := "}" + rest;
    RenderEndsWith(a, rest);
    assert s[|s| - |k|..] == k;
  }

  /** The text of a span ends with its closing `}` and then whatever followed it. */
  lemma RenderEndsWith(a: AttrSpan, k: string)
    ensures EndsWith(Render(a, k), "}" + k)
  {
    var k' := "}" + k;
    ItemsEndWith(a.items, k');
    EndsWithTrans(a.lead + RenderItems(a.items, k'), RenderItems(a.items, k'), k');
    EndsWithTrans(Render(a, k), a.lead + RenderItems(a.items, k'), k');
  }

  lemma OptionalEndsWith(a: Option<AttrSpan>, k: string)
    ensures EndsWith(RenderOptional(a, k), k)
  {
    if a.Some? {
      RenderEndsWith(a.value, k);
      EndsWithTrans(RenderOptional(a, k), "}" + k, k);
    }
  }

  lemma AttrEndsWith(a: Attr, k: string)
    ensures EndsWith(RenderAttr(a, k), k)
  {
    match a
    case Id(n) => assert RenderAttr(a, k) == ("#" + n) + k;
    case Class(n) => assert RenderAttr(a, k) == ("." + n) + k;
    case KeyValue(key, v) =>
      match v
      case Quoted(q, x) => assert RenderAttr(a, k) == (key + "=" + [q] + x + [q]) + k;
      case Unquoted(x) => assert RenderAttr(a, k) == (key + "=" + x) + k;
  }

  /** The rendered items end with whatever followed them. */
  lemma {:induction false} ItemsEndWith(items: seq<Item>, k: string)
    ensures EndsWith(RenderItems(items, k), k)
    decreases |items|
  {
    if items != [] {
      var inner := RenderItems(items[1..], k);
      var k' := items[0].gap + inner;
      ItemsEndWith(items[1..], k);
      AttrEndsWith(items[0].attr, k');
      EndsWithTrans(k', inner, k);
      EndsWithTrans(RenderAttr(items[0].attr, k'), k', k);
    }
  }

  // ---------------------------------------------------------------- completeness

  lemma ParseValueComplete(v: Value, rest: string)
    requires ValueWF(v)
    requires v.Unquoted? ==> rest == [] || !IsUnquotedChar(rest[0])
    ensures ParseValue(RenderValue(v, rest)) == Some((v, rest))
  {
    match v
    case Quoted(q, x) =>
      var t := RenderValue(v, rest);
      var u := x + ([q] + rest);
      assert t[0] == q && t[1..] == u;
      assert All(c => c != q, x);
      SpanConcat(c => c != q, x, [q] + rest);
      assert u[|x|] == q && u[..|x|] == x && u[|x| + 1..] == rest;
    case Unquoted(x) =>
      SpanConcat(IsUnquotedChar, x, rest);
  }

  lemma ParseNameComplete(a: Attr, rest: string)
    requires a.Id? || a.Class?
    requires AttrWF(a) && GreedyBoundary(a, rest)
    ensures ParseAttr(RenderAttr(a, rest)) == Some((a, rest))
  {
    var t := RenderAttr(a, rest);
    assert t[1..] == a.name + rest;
    SpanConcat(IsNameChar, a.name, rest);
  }

  lemma ParseKeyValueComplete(a: Attr, rest: string)
    requires a.KeyValue?
    requires AttrWF(a) && GreedyBoundary(a, rest)
    ensures ParseAttr(RenderAttr(a, rest)) == Some((a, rest))
  {
    var key, v := a.key, a.value;
    var after := "=" + RenderValue(v, rest);
    var t := RenderAttr(a, rest);
    assert t == key + after;
    assert t[1..] == key[1..] + after;
    SpanConcat(IsKeyChar, key[1..], after);
    assert t[|key|..] == after;
    assert after[1..] == RenderValue(v, rest);
    ParseValueComplete(v, rest);
  }

  lemma ParseAttrComplete(a: Attr, rest: string)
    requires AttrWF(a) && GreedyBoundary(a, rest)
    ensures ParseAttr(RenderAttr(a, rest)) == Some((a, rest))
  {
    if a.KeyValue? {
      ParseKeyValueComplete(a, rest);
    } else {
      ParseNameComplete(a, rest);
    }
  }

  /** Rendered items never begin with whitespace: they begin with `#`, `.`, a key
      character or the closing `}`. */
  lemma ItemsStart(items: seq<Item>, rest: string)
    requires ItemsWF(items)
    ensures var t := RenderItems(items, "}" + rest);
      t[0] == '}' || t[0] == '#' || t[0] == '.' || IsKeyStart(t[0])
  {
  }

  /** An item is read back from its text when the following text does not start
      with whitespace and respects the item's greedy boundary. */
  lemma ParseItemComplete(it: Item, tail: string)
    requires AttrWF(it.attr) && All(IsWhitespace, it.gap)
    requires tail == [] || !IsWhitespace(tail[0])
    requires GreedyBoundary(it.attr, it.gap + tail)
    ensures var t := RenderAttr(it.attr, it.gap + tail);
      t != [] && t[0] != '}' && ParseItem(t) == Some((it, tail))
  {
    var u := it.gap + tail;
    ParseAttrComplete(it.attr, u);
    SpanConcat(IsWhitespace, it.gap, tail);
    assert u[..|it.gap|] == it.gap && u[|it.gap|..] == tail;
  }

  /** The first item of a well-formed list respects its greedy boundary: what
      follows it is whitespace, `}`, or (after an item that is not greedy) the
      next item. */
  lemma FirstItemBoundary(items: seq<Item>, rest: string)
    requires items != [] && ItemsWF(items)
    ensures var tail := RenderItems(items[1..], "}" + rest);
      && (tail == [] || !IsWhitespace(tail[0]))
      && GreedyBoundary(items[0].attr, items[0].gap + tail)
  {
    ItemsStart(items[1..], rest);
  }

  lemma {:induction false} ParseItemsComplete(items: seq<Item>, rest: string)
    requires ItemsWF(items)
    ensures ParseItems(RenderItems(items, "}" + rest)) == Some((items, rest))
    decreases |items|
  {
    if items != [] {
      var it, more := items[0], items[1..];
      var tail := RenderItems(more, "}" + rest);
      var t := RenderItems(items, "}" + rest);
      assert t == RenderAttr(it.attr, it.gap + tail);
      FirstItemBoundary(items, rest);
      ParseItemComplete(it, tail);
      ParseItemsComplete(more, rest);
      assert [it] + more == items;
    }
  }

  /** Every well-formed span is read back from its own text, whatever follows it:
      the parser and `Render` are inverse on exactly the trees `SpanWF` admits. */
  lemma ParseAttributesComplete(a: AttrSpan, rest: string)
    requires SpanWF(a)
    ensures ParseAttributes(Render(a, rest)) == Some((a, rest))
  {
    var tail := RenderItems(a.items, "}" + rest);
    ItemsStart(a.items, rest);
    SpanConcat(IsWhitespace, a.lead, tail);
    assert Render(a, rest)[1..] == a.lead + tail;
    ParseItemsComplete(a.items, rest);
  }
}
