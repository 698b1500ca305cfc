# A verified model of the sdjot tree-sitter grammar

This project models `grammar.js`, the tree-sitter grammar of a small Djot dialect
("sdjot"), as a deterministic parser over `seq<char>`. It proves what the grammar's
rules promise about the trees they accept. The grammar is declarative: every rule is
built from `seq`, `choice`, `repeat`, `optional` and `token`, with regular
expressions. So the model is pure: datatypes for the syntax trees, recursive
functions for the parsers, and lemmas.

Every parser takes the remaining input and returns the node and the rest. Each is
lossless: a renderer gives back exactly the consumed text, so `s == Render(node, rest)`.
Soundness lemmas show that every parsed tree is a derivation of its rule. For
attributes, verbatim spans and code blocks the well-formedness predicates
(`SpanWF`, `IsContent`, `CodeWF`) are those derivations, and completeness lemmas
show that every well-formed tree is read back from its own text; the same holds
for heading markers.

Inline content is ambiguous, so there the model states the grammar's derivations
as a relation between a text and a tree (`Inline.Derives`). It proves that the
parser picks a derivation with the fewest literal delimiters
(`InlineParse.LineOptimal`), and that every line of a paragraph or heading is such
a derivation of the text it stands in (`BlockProps.LinesDerive`). The shape
predicates `NodeWF` and `LinesWF` do not tie a tree to its text, and
`TicksAreNoText` shows that shape alone is not enough. For paragraphs, headings and
documents the model proves totality (`LinesTotal`, `HeadingTotal`,
`ParagraphTotal`) and soundness, not a read-back of every tree.

The model follows how tree-sitter lexes:

- A regex token takes the longest match.
- A string token beats a regex token matching the same length.
- Only tokens valid in the current parse state are tried.

Consequences that the model makes explicit:

- At the start of a block, "```" opens a code block unless a verbatim token matches there, since that token is longer.
- A code block closes only on a line that is exactly "```".
- A `{` after a closing `_` or `*` must begin an attribute span that parses. Otherwise that delimiter cannot close.
- The grammar declares the conflicts between `emphasis` and `_fallback` and between `strong_emphasis` and `_fallback_star` (grammar.js:9-12), so the runtime keeps every parse alive and in the end takes the one with the highest total dynamic precedence. Each literal delimiter costs -100 (grammar.js:136-137), so the chosen parse is one with the fewest literals. The model searches all derivations of a line for one with the fewest literals; `_a_a__`, for example, pairs all four underscores, and so does every line of that shape with another delimiter or another plain character (`FewestLiterals`).

Modules:

- `Common`: option type, character classes, the greedy scan `Span` behind every `[...]+` token, and the carriage-return filter.
- `Attributes`: `{#id .class key=value}`.
- `Verbatim`: backtick spans with fences of 1 to 4.
- `Inline`: `_inline`, emphasis, strong emphasis, fallbacks, and the derivations the grammar admits.
- `InlineParse`: the choice among them, a search for the derivation with the fewest literals.
- `InlineProps`: what that choice means for unmatched openers and plain pairs.
- `Blocks` and `BlockProps`: headings, code blocks, paragraphs, blank lines and the document.

Where the grammar's comments or the dialect's wider description disagree with the grammar's code, the model follows the code:

- The comment at grammar.js:57 gives heading levels 1 to 6. `heading_marker` (grammar.js:65-68) does not cap the level, and `SevenHashes` shows a level-7 heading.
- A code block with no closing marker is a syntax error (grammar.js:97-105). It does not run to the end of the input (`UnterminatedCode`).
- A paragraph or heading line must end with a newline (grammar.js:62, 113). A last line without one is a syntax error (`MissingNewline`).
- The closing marker of a code block is a line that is exactly "```". A line "```x" is a code line.
- A word such as `=html` after the opening marker is a `language` like any other. The grammar has no raw-block rule.
- The comment at grammar.js:119 says a single space is stripped when verbatim content starts or ends with a backtick. No rule strips anything: the content is what the regex matched. The content regexes do not even let content start or end with a backtick (`ContentEdges`).
- The comment at grammar.js:58 says heading lines may be prefixed with matching `#` markers. In the rule (grammar.js:59-64) only the first line has a `heading_marker`; a `#` at the start of a later line is inline text.
- For fences of 2 to 4 backticks, the content regexes (grammar.js:125-129) let a backtick be followed by a newline. A verbatim span of that kind can therefore cross a line end, and the model keeps this.

## Model

| member | source | states |
|---|---|---|
| Common.RemoveCR | grammar.js:7 | the filtered input has no `\r`, and holds every other character exactly as often as the input does |
| Common.RemoveCRAppend | grammar.js:7 | filtering a concatenation filters each part and keeps them in order |
| Common.RemoveCRChar | grammar.js:7 | a carriage return is dropped and any other character kept: with `RemoveCRAppend`, the filter keeps the order of what it keeps |
| Common.RemoveCRNone | grammar.js:7 | text without carriage returns is left unchanged, so filtering twice is filtering once |
| Attributes.ParseValue | grammar.js:51-55 | the quoted or unquoted value read from the text is lossless |
| Attributes.ParseName | grammar.js:39-40 | `#` or `.` and a name, read losslessly |
| Attributes.ParseKeyValue | grammar.js:41-50 | key, `=` and value, read losslessly |
| Attributes.ParseAttr | grammar.js:28-32 | one id, class or key=value item, read losslessly |
| Attributes.ParseItem | grammar.js:27-34 | one id, class or key=value item and the optional whitespace after it, read losslessly, with the rest strictly shorter |
| Attributes.ParseItems | grammar.js:26-36 | the items with their trailing whitespace up to `}`, read losslessly, with the rest strictly shorter |
| Attributes.ParseAttributes | grammar.js:22-37 | a whole span, read losslessly, with the rest strictly shorter |
| Attributes.ParseValueSound | grammar.js:51-55 | a quoted value has no occurrence of its own quote; an unquoted value is non-empty, has no whitespace, `}`, `'` or `"`, and is not followed by another such character |
| Attributes.ParseAttrSound | grammar.js:39-55 | every item read is well formed: a name is one or more `[^\s}]`, a key matches `[a-zA-Z_:][a-zA-Z0-9_:.-]*`; a greedy token ends at a boundary |
| Attributes.GreedyItemIsLast | grammar.js:26-35 | an item ending in a greedy token with no whitespace after it can only be followed by `}` |
| Attributes.ParseItemsSound | grammar.js:26-36 | the items read satisfy `ItemsWF`, including that an item ending greedily is followed by whitespace unless it is the last |
| Attributes.ParseAttributesSound | grammar.js:22-37 | an accepted span is well formed, opens with `{` and closes with `}` |
| Attributes.RenderEndsWith | grammar.js:36 | the text of a span ends with `}` and then whatever follows |
| Attributes.ParseValueComplete | grammar.js:51-55 | every well-formed value is read back from its text |
| Attributes.ParseNameComplete | grammar.js:39-40 | every well-formed id or class is read back |
| Attributes.ParseKeyValueComplete | grammar.js:41-55 | every well-formed key=value item is read back |
| Attributes.ParseAttrComplete | grammar.js:28-32 | every well-formed item is read back when a greedy boundary follows it |
| Attributes.ParseItemComplete | grammar.js:27-34 | a well-formed item and its whitespace are read back when no whitespace follows and its greedy boundary holds; its text does not start with `}` |
| Attributes.ParseItemsComplete | grammar.js:26-36 | every well-formed item sequence is read back, up to its `}` |
| Attributes.ParseAttributesComplete | grammar.js:22-37 | every well-formed span is read back from its text, whatever follows it |
| Verbatim.Ticks | grammar.js:121-130 | a fence of `n` backticks has length `n` and holds only backticks |
| Verbatim.CloserAt | grammar.js:123-129 | the scan for the closing fence stays within the text |
| Verbatim.Pieces | grammar.js:125-129 | the repeated part of the content regex for a fence of `n`: characters other than a backtick or newline, and runs of fewer than `n` backticks each with the character that ends them |
| Verbatim.IsContent | grammar.js:123-129 | content is a first character other than a backtick or newline, then pieces |
| Verbatim.Match | grammar.js:121-130 | the verbatim token is the fence, the content, the same fence, then the rest |
| Verbatim.CloserIsFence | grammar.js:123-129 | the scan stops in front of `n` backticks |
| Verbatim.ScanSound | grammar.js:123-129 | the text scanned before the closing fence is content of the content regex (`Pieces`) |
| Verbatim.MatchSound | grammar.js:121-130 | a matched token has a fence of 1 to 4 and well-formed content |
| Verbatim.ScanComplete | grammar.js:123-129 | for well-formed content followed by the fence, the scan stops exactly at the end of the content |
| Verbatim.MatchComplete | grammar.js:121-130 | every well-formed verbatim span is read back, whatever follows; extra backticks after the fence stay outside |
| Verbatim.MatchUnique | grammar.js:121-130 | a text is a verbatim span in at most one way (fence, content and rest are determined) |
| Verbatim.PiecesIff | grammar.js:125-129 | the recursive content regex holds if and only if every backtick run is shorter than the fence, the text does not end with a backtick, and every newline follows a backtick |
| Verbatim.ContentIff | grammar.js:123-129 | verbatim content holds if and only if the declarative content shape holds |
| Verbatim.ContentEdges | grammar.js:123-129 | content is non-empty, starts with neither a backtick nor a newline, and does not end with a backtick; under one backtick it holds no backtick and no newline |
| Verbatim.DoubleFenceHoldsSingleTick | grammar.js:125 | ``` ``a`b``! ``` is a two-backtick span with content ``a`b`` and rest `!` |
| Inline.ClosesAt | grammar.js:132-133 | a delimiter can close where it is followed by nothing, by a character other than `{`, or by an attribute span that parses |
| Inline.CloserAttrs | grammar.js:132-133 | after a closer come its attributes exactly when a span parses there; closer, attributes and rest are the text, and a closer not followed by `{` has none |
| Inline.DerivesText | grammar.js:117-138 | a derived item is its own text, takes at least one character and does not start with a newline |
| Inline.DerivesRunText | grammar.js:117 | a derived run is its own text and ends where a run may end; the inner run of a span is not empty (`repeat1`) |
| Inline.DerivesWF | grammar.js:117-138 | a derived item has the shape of its rule: text, literal, verbatim token, or a span with a non-empty inner run and well-formed attributes |
| Inline.DerivesRunWF | grammar.js:117 | every item of a derived run has the shape of its rule |
| Inline.RenderSeqEndsWith | grammar.js:117 | the text of items ends with what follows them |
| Inline.NodeLast | grammar.js:121-137 | the text of a derived item never ends with a newline |
| Inline.RunLast | grammar.js:117 | the text of a non-empty derived run never ends with a newline |
| InlineParse.BetterRun | grammar.js:9-12 | of two candidate runs the choice is one of them, present when either is, and has no more literals than either |
| InlineParse.BetterItem | grammar.js:9-12 | of two candidate items the choice is one of them, present when either is, and has no more literals than either |
| InlineParse.BestRunSound | grammar.js:117-137 | the run the search picks is a derivation that ends at the requested point |
| InlineParse.BestItemSound | grammar.js:117-138 | the item the search picks is a derivation that ends at the requested point |
| InlineParse.SpanCandSound | grammar.js:132-133 | a span the search builds for a given closer is derived: its inner run ends at that closer, which is usable, and the closer's attributes are those that parse |
| InlineParse.LiteralItem | grammar.js:121-138 | with every delimiter literal, every character other than a newline starts a derived item |
| InlineParse.LiteralRunDerives | grammar.js:117-138 | every line has a derivation, the one with every delimiter literal |
| InlineParse.ItemOptimal | grammar.js:132-137 | no derived item ending at a point has fewer literals than the one the search picks there |
| InlineParse.RunOptimal | grammar.js:117-137 | no derived run ending at a point has fewer literals than the one the search picks there |
| InlineParse.ParseLine | grammar.js:117 | the run of a line is a derivation, is its own text, ends at the end of the input or at a newline, and has an item unless the line is empty |
| InlineParse.LineOptimal | grammar.js:136-137 | no derivation of the line has fewer literal delimiters than the parse |
| InlineParse.LineTotal | grammar.js:117-138 | any text without a newline is consumed completely by one run, with at least one item when the text is non-empty |
| InlineParse.ConsumedAll | grammar.js:117 | a run that consumes a whole non-empty text leaves it ending with something other than a newline |
| InlineProps.FewestLiterals | grammar.js:132-137 | for every delimiter `d` and plain character `x` other than `{`, the line `dxdxdd` (`_a_a__`, say) is parsed with no literal: all four delimiters pair, although the first two also make a span |
| InlineProps.MatchStart | grammar.js:121-130 | a verbatim token starts with a backtick |
| InlineProps.RunAtStop | grammar.js:117-138 | no item starts at the end of the input or at a newline |
| InlineProps.PlainRun | grammar.js:138 | in every derivation, characters other than a newline, a delimiter or a backtick are one text item each |
| InlineProps.TextsDerive | grammar.js:138 | such characters in front of a derived run are a derived run |
| InlineProps.UnmatchedIsLiteral | grammar.js:132-137 | in every derivation, an opener with no character of its kind after it is a literal |
| InlineProps.SpanCloser | grammar.js:132-133 | a derived span has a closer of its own kind after its opener |
| InlineProps.UnmatchedInLine | grammar.js:132-137 | the parse of a line that starts with such an opener starts with a literal |
| InlineProps.PairUnique | grammar.js:132-137 | a delimiter, plain text and the same delimiter at the end of a line have exactly one derivation without literals |
| InlineProps.PlainPairIsEmphasis | grammar.js:132-133 | such a line is parsed as one emphasis or strong emphasis holding exactly that text |
| InlineProps.Examples | grammar.js:132-137 | `_ab_` is one emphasis; `*a` is a literal star and `a` |
| Blocks.ParseHeadingMarker | grammar.js:65-68 | the marker is that many `#`, then spaces and tabs, then the rest |
| Blocks.ParseLines | grammar.js:112-113 | the inline lines are read losslessly, each with its newline, ended by a blank line or the end of the input |
| Blocks.ParseCodeLines | grammar.js:103-107 | code lines, each with its newline, then the closing marker, read losslessly |
| Blocks.IsFence | grammar.js:104-107 | a line is the closing marker when it is "```" followed by a newline or the end of the input |
| Blocks.SplitLine | grammar.js:107 | a code line has no newline and is followed by one; there is none exactly when the text has no newline |
| Blocks.ParseLanguage | grammar.js:108 | the language is a non-empty greedy run of `[^\s{]`, or absent |
| Blocks.ParseNewline | grammar.js:102 | the opening line ends with a newline |
| Blocks.ParseInfoEnd | grammar.js:100-102 | optional attributes and the newline, read losslessly |
| Blocks.ParseCodeBlock | grammar.js:97-108 | a code block from its opening marker on, read losslessly |
| Blocks.ParseBlock | grammar.js:18 | one block, read losslessly, consuming at least one character |
| Blocks.ParseBlocks | grammar.js:15 | the blocks together are exactly the input |
| Blocks.ParseDocument | grammar.js:7-15 | the blocks together are exactly the input with carriage returns removed |
| BlockProps.HeadingMarkerSound | grammar.js:65-68 | the level is at least 1 (not capped at 6), the gap is one or more spaces or tabs, and no space or tab follows it |
| BlockProps.HeadingMarkerComplete | grammar.js:65-68 | every marker is read back with its level and gap |
| BlockProps.FenceLine | grammar.js:104-106 | a line "```" followed by a newline is the closing marker |
| BlockProps.SplitLineOf | grammar.js:107 | a newline-free line followed by a newline is read as that line |
| BlockProps.NotFence | grammar.js:104-107 | any other newline-free line is not the closing marker |
| BlockProps.CodeLinesSound | grammar.js:103-107 | code lines hold no newline, and none is "```" |
| BlockProps.CodeLinesComplete | grammar.js:103-107 | code lines are read back literally, up to a closing marker followed by a newline or the end of the input |
| BlockProps.InfoEndSound | grammar.js:101 | the attributes of a code block are well formed |
| BlockProps.CodeBlockSound | grammar.js:97-108 | a code block has a well-formed language, attributes and lines |
| BlockProps.InfoEndComplete | grammar.js:100-102 | well-formed attributes and the newline are read back |
| BlockProps.LanguageComplete | grammar.js:108 | a well-formed language is read back when no language character follows it |
| BlockProps.CodeBlockComplete | grammar.js:97-108 | every well-formed code block is read back from its opening marker on |
| BlockProps.NoCloserInLine | grammar.js:121-130 | no verbatim closer is found in a line without backticks |
| BlockProps.CodeBlockRoundTrip | grammar.js:97-108 | a well-formed code block whose opening line has no backtick is read back as a block |
| BlockProps.LinesSound | grammar.js:112-113 | each line is a non-empty inline run the grammar derives from the text it stands in, up to its newline, with no derivation of that text having fewer literals; lines not ended by a blank line end at the end of the input |
| BlockProps.LineFewest | grammar.js:112-113 | the run read from a line is a derivation of it, and no derivation of it has fewer literal delimiters |
| BlockProps.LinesDeriveWF | grammar.js:112-117 | derived lines have the shape of inline runs |
| BlockProps.TicksAreNoText | grammar.js:117-138 | three text items such as those of "`a`" have the shape of a line but are not derived, because that text is a verbatim token |
| BlockProps.TickedMatch | grammar.js:121-123 | a character other than a backtick or newline between single backticks is a verbatim span |
| BlockProps.LineEnds | grammar.js:62 | a text that starts with something other than a newline and ends with one is a non-empty inline run and then a newline |
| BlockProps.LinesTotal | grammar.js:112-113 | any such text parses as paragraph lines |
| BlockProps.BlockSound | grammar.js:18 | every block is derived by its rule from the text it stands in: code blocks have a well-formed language, attributes and lines, and a heading's or paragraph's lines are derived with the fewest literals; a paragraph or heading not ended by a blank line ends the input |
| BlockProps.HeadingTotal | grammar.js:59-68 | a marker followed by text that ends with a newline is a heading of that level |
| BlockProps.ParagraphTotal | grammar.js:112-113 | text ending with a newline that does not start a blank line, heading or code block is a paragraph |
| BlockProps.DocumentSound | grammar.js:15-18 | every block of a document is derived from the text it stands in, the later blocks included, and only the last can lack its blank-line terminator |
| BlockProps.BlankDocument | grammar.js:15-18 | `n` newlines are `n` blank-line blocks |
| BlockProps.SevenHashes | grammar.js:57-68 | `####### a` is a heading of level 7 |
| BlockProps.CodeDispatch | grammar.js:18 | "```" that does not begin a verbatim token opens a code block |
| BlockProps.UnterminatedCode | grammar.js:97-105 | a code block without a closing marker is rejected |
| BlockProps.CodeUnterminated | grammar.js:103-107 | the code lines of `"```\nx\n"` never reach a closing marker |
| BlockProps.MissingNewline | grammar.js:112-113 | any non-empty text without a newline that starts with neither `#` nor a backtick is rejected: a paragraph line needs its newline |
| BlockProps.FenceThatIsVerbatim | grammar.js:97-130 | "```", any content of a three-backtick span, "```" and a newline at the start of a block are a paragraph (a verbatim span), not a code block |

## Left out

- External scanner tokens (grammar.js:141-151) and the rules that need them, `block_quote` and `div` (grammar.js:70-94): their logic is in a scanner that is not part of this model. `_close_paragraph` is taken to occur at the end of the input only.
- Ties between parses: among derivations with equally few literals, the model prefers a span to a literal at the first item where they differ, and a shorter span to a longer one. How the runtime breaks such ties is not modelled. `PairUnique` and `Examples` do not depend on it, because there the best derivation is unique.
- The parser's limit on the parses it keeps alive at once: on inputs with many simultaneous ambiguities the runtime can drop parses, and the model does not.
- InlineParse.ParseLine: picks the fewest literals line by line. A closer's attributes may span a newline (`\s+` inside `{...}`), so where a line ends can depend on that choice; the runtime minimises over the whole document, the model over each line in turn.
- Whitespace class: `\s` is taken to be the ASCII white space, that is space, tab, line feed, vertical tab, form feed and carriage return. This is an assumption about how tree-sitter's grammar generator expands `\s`; the generator is not part of this model. If it expanded `\s` to Unicode white space, more characters would separate attributes and end a language.
- Error recovery: where the grammar has no parse, the model returns `None`. It does not model the error nodes tree-sitter would build.
- Node aliases (grammar.js:87, 92), incremental reparsing, and the node-naming details of the concrete syntax tree.
- Carriage returns: `RemoveCR` removes every `\r` before parsing. The runtime skips `\r` only between tokens (grammar.js:7), so a `\r` inside a token (a code line, verbatim content, an attribute value) stays part of that token there.
- Empty code lines: the model reads an empty line inside a code block as an empty code line. How the runtime lexes the zero-length match of `/[^\n]*/` (grammar.js:107) is not modelled.
- Attribute semantics (which id wins, how classes merge): the grammar only recognises attribute spans.
- BlockProps.CodeBlockRoundTrip: requires the opening line to hold no backtick. Where a language or attribute value holds "```", the opening line can be a verbatim token, and that case is not covered.
- InlineProps.PlainPairIsEmphasis: states the pairing for plain text only. For nested content, `LineOptimal` gives the fewest literals but not the tree.
- Inline completeness: the inline parser is not proved to read back every derivation, because several derivations share a text and it picks one with the fewest literals. Soundness (`BestRunSound`) and optimality (`LineOptimal`) are proved instead.
