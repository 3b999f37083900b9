# proxylist — a Dafny model of the row decoder

`proxylist.go` reads one table row of a proxy-listing page. The row hides its IP address among decoy
markup. The row's inline stylesheet hides some four-character class tokens with rules
`.T{display:none}`. The markup after the stylesheet wraps the address in elements. Some of those
elements are hidden, by that stylesheet or by an inline `style="display:none"`. `ParseAddress`
strips the hidden elements, unwraps the visible ones and trims what follows the address.
Seven smaller methods each read one field of the row with a fixed regular expression.

The model has seven modules, one per file:

- `Text` (`text.dfy`): literal prefixes, Go's `strings.Index`, the character classes the patterns
  use (`\s`, `\S`, `[0-9]`, `[0-9\.]`, `[0-9a-zA-Z_\-]`, `[^c]`), greedy runs, Go's
  `strings.TrimSpace` (Unicode white space), and "is a subsequence of".
- `StyleRules` (`style_rules.dfy`): where the stylesheet sits in the row, the rule pattern of
  `InvisibleTags`, Go's `FindAllStringSubmatch` over it, and the hidden tokens read declaratively.
- `Rewrite` (`rewrite.dfy`): the six passes of `ParseAddress`. Each fixed pattern is an anchored
  matcher. Go's `ReplaceAllString` (and `strings.Replace` with no limit) is one leftmost-first scan
  that never rescans its own output.
- `Markup` (`markup.dfy`): row markup as a sequence of pieces (plain text, empty spans,
  single-level elements, and other tags such as `</span>` or `<td>` that open no `span` or `div`),
  and what each pass does to each piece.
- `Address` (`address.dfy`): the passes in the order `ParseAddress` runs them, the decoded address
  as a function of the row, and what it comes to on well-formed markup.
- `Extract` (`extract.dfy`): the five patterns of the seven field extractors, each an anchored
  matcher shown complete, and Go's `FindStringSubmatch` as the group of the leftmost match.
- `ProxyList` (`proxy.dfy`): the `Proxy` struct as a class, and its ten methods. The seven field
  extractors each overwrite their own field, and only when their pattern is found. `ParseAddress`
  overwrites `Address` whenever the cleaned text is non-empty, whether or not any pattern matched
  (a row `<style></style>hello` stores `hello`). `InvisibleTags` and `DecodeAddress` (the address
  computation split out of `ParseAddress`) write no field.

No regular-expression engine is modelled. For each pattern, an anchored matcher computes the match
that Go's leftmost-first, greedy preference selects at a position, and a completeness lemma shows
that it is that match. For the five extractor patterns and the element patterns, the completeness
lemmas also show that this match is the only one at its position. The trim pattern
`([0-9\.]{7,15}).*` is different: on `12345678x`, both `1234567`+`8x` and `12345678`+`x` are
matches at position 0. `Rewrite.TrailingRunLanguage` shows that the matcher reports the split Go
prefers: the longest group, and then the longest `.*`. The anonymity pattern
`<td nowrap>([^>]+)<\/td>` needs a back-off. Its run stops before the first '>',
and the engine then steps back four characters to find `</td`. So the group may contain '<', and
even a `</td` that no '>' follows, but never '>'.

Some behaviours of the Go code worth knowing, all of which the model keeps:

- When `<style>` is missing but `</style>` is present at index 6 or later, `strings.Index` returns
  -1. `InvisibleTags` then reads the stylesheet slice from index 6 and does not fail. `StyleBounds`
  admits exactly the rows on which neither slice of the Go code panics.
- The trim pattern (proxylist.go:48) is not anchored. Text before the first run of 7 digits and dots
  on a line is kept, and so are lines that have no such run.
- The `display:none` pass (proxylist.go:29) and the hidden-class passes (proxylist.go:35) remove an
  element only when its content is non-empty and has no '<'. A hidden element that is empty or
  holds other elements is not removed as a whole.
- A token hidden twice in the stylesheet is returned twice by `InvisibleTags` and gets two passes.
  `ReplaceAllString` does not rescan its own output, so the second pass can remove an element that
  the first pass's deletions brought together.

## Model

| member | source | states |
|---|---|---|
| ProxyList.Proxy.constructor | proxylist.go:8-19 | a new `Proxy` holds Go's zero value: every string field empty and both integer fields 0 |
| ProxyList.Proxy.InvisibleTags | proxylist.go:56-72 | the loop over the rule matches returns exactly the declarative hidden tokens of the stylesheet slice. A token is returned iff it is four characters of `[0-9a-zA-Z_\-]` and `.T{display:none}` occurs in the slice; duplicates are kept in order |
| ProxyList.Proxy.DecodeAddress | proxylist.go:22-49 | slicing after the first `</style>`, the two fixed passes, the loop with one pass per hidden token, and the last three passes compute `CleanAddress` of the row |
| ProxyList.Proxy.ParseAddress | proxylist.go:21-54 | afterwards `Address` holds the cleaned text when that is non-empty and its old value otherwise; no other field changes |
| ProxyList.Proxy.ParseLastUpdate | proxylist.go:74-81 | `LastUpdate` becomes the trimmed group of the leftmost update-stamp match when there is one; otherwise nothing changes |
| ProxyList.Proxy.ParsePort | proxylist.go:83-90 | `Port` becomes the group of the leftmost `<td>(\S+)\s+<\/td>` match when there is one; otherwise nothing changes |
| ProxyList.Proxy.ParseCountry | proxylist.go:92-99 | `Country` becomes the trimmed group of the leftmost country match when there is one; otherwise nothing changes |
| ProxyList.Proxy.ParseSpeed | proxylist.go:101-108 | `Speed` becomes the group of the leftmost bar-width match, '%' included, when there is one; otherwise nothing changes |
| ProxyList.Proxy.ParseConnection | proxylist.go:110-117 | `Connection` is written as `Speed` is, with the same pattern |
| ProxyList.Proxy.ParseProtocol | proxylist.go:119-126 | `Protocol` is written as `Port` is, with the same pattern |
| ProxyList.Proxy.ParseAnonymity | proxylist.go:128-135 | `Anonymity` becomes the trimmed group of the leftmost `<td nowrap>` match when there is one; otherwise nothing changes |
| ProxyList.Found | proxylist.go:85-89 | when the pattern matches nowhere the field keeps its value; otherwise the new value is a group of the shape the pattern allows |
| ProxyList.FoundTrimmed | proxylist.go:76-80 | as `Found`, except that a group found is stored after `strings.TrimSpace` |
| ProxyList.PairedFields | proxylist.go:84-124 | port and protocol share one pattern, and speed and connection share another. Once the pattern matches a row, both fields of a pair get the same value, whatever they held before |
| Extract.StampAt | proxylist.go:75 | a match of `<span class="updatets[^>]+>([^<]+)<\/span>` at the front of the text has non-empty runs of the right classes and spells out what it consumed |
| Extract.StampAtComplete | proxylist.go:75 | every way the update-stamp pattern can match at the front of the text is the one `StampAt` reports |
| Extract.CellAt | proxylist.go:84 | a match of `<td>(\S+)\s+<\/td>` at the front has a non-empty non-blank group, then a non-empty blank run |
| Extract.CellAtComplete | proxylist.go:84 | every match of the cell pattern at the front is the one `CellAt` reports |
| Extract.CountryAt | proxylist.go:93 | a match of `\/>([^<]+)<\/span><\/td>` at the front has a non-empty '<'-free group |
| Extract.CountryAtComplete | proxylist.go:93 | every match of the country pattern at the front is the one `CountryAt` reports |
| Extract.WidthAt | proxylist.go:102 | a match of `style="width: ([0-9]+%);` at the front has a non-empty run of digits before `%;` |
| Extract.WidthAtComplete | proxylist.go:102 | every match of the bar-width pattern at the front is the one `WidthAt` reports |
| Extract.NowrapAt | proxylist.go:129 | a match of `<td nowrap>([^>]+)<\/td>` at the front has a non-empty '>'-free group followed by `</td>` |
| Extract.NowrapAtComplete | proxylist.go:129 | every match of the anonymity pattern at the front is the one `NowrapAt` reports: the group ends at the `</td` just before the first '>' |
| Extract.MatchAt | proxylist.go:75-129 | the anchored match of each of the five patterns is a match of that pattern |
| Extract.MatchAtComplete | proxylist.go:75-129 | each pattern matches in at most one way at a given position, and that match is the one reported |
| Extract.HitGroupOk | proxylist.go:75-129 | the group of every match is of the shape its pattern allows; the bar width is digits then '%' |
| Extract.Leftmost | proxylist.go:76 | the position reported is a match, and no match starts before it; -1 means there is no match anywhere |
| Extract.Submatch | proxylist.go:76-78 | `FindStringSubmatch` followed by the `len(parts) == 2` test: nothing iff the pattern matches nowhere, and otherwise a group of the allowed shape |
| Extract.SubmatchIs | proxylist.go:76-78 | a match with no match to its left is the one whose group is reported |
| Extract.SubmatchFirst | proxylist.go:76-78 | a match at the very start of the text is reported, whatever follows it |
| Extract.PortScenario | proxylist.go:83-90 | a row beginning `<td>8080 </td>` yields port `8080`, even when a second cell follows |
| Extract.WidthScenario | proxylist.go:101-108 | a row beginning `style="width: 75%;` yields `75%`, with its '%' |
| Extract.StampScenario | proxylist.go:75 | `<span class="updatets">10:42 </span>` matches, because `[^>]+` takes the closing quote |
| Extract.StampTrim | proxylist.go:79 | the stamp's trailing blank is trimmed away |
| Extract.BlankCountryScenario | proxylist.go:92-99 | a blank country name is found and trims to the empty string, which is what gets stored |
| Extract.AnonymityScenario | proxylist.go:129 | ` elite proxy ` is read whole from its cell |
| Extract.NowrapBackOffScenario | proxylist.go:129 | in `<td nowrap>a</td</td>`, the first `</td` is not followed by '>', so it belongs to the group `a</td`; the closing tag is the `</td` just before the first '>' |
| Extract.LevelTrim | proxylist.go:133 | trimming keeps the inner blank of `elite proxy` and drops the outer ones |
| StyleRules.RuleAt | proxylist.go:62 | a match of the rule pattern at the front of the text has a well-formed token and spells out that rule |
| StyleRules.RuleAtComplete | proxylist.go:62 | every well-formed rule at the front of the text is the one the pattern reports |
| StyleRules.RuleMatches | proxylist.go:63 | the non-overlapping leftmost scan of `FindAllStringSubmatch` reports only well-formed tokens |
| StyleRules.ScanFindsEveryHidingRule | proxylist.go:63-69 | the hiding tokens of Go's non-overlapping scan are exactly those of every occurrence of a hiding rule, in order |
| StyleRules.HiddenTokensMembership | proxylist.go:62-69 | a token is hidden iff it is well formed and `.T{display:none}` occurs in the slice; a token declared only `{display:inline}` is never hidden |
| StyleRules.HiddenTokensRule | proxylist.go:66-68 | a rule at the front of the slice adds its token exactly when it says `none` |
| StyleRules.StyleSection | proxylist.go:58-60 | the stylesheet slice ends exactly where the first `</style>` begins, and starts 7 characters after the first `<style>` (at index 6 when there is none) |
| StyleRules.StyleBounds | proxylist.go:22-23 | when it holds, both Go slices are in range: `start + 7 <= end` and the closing marker fits in the row |
| StyleRules.HiddenTokens | proxylist.go:62-69 | the hidden tokens read declaratively, one per occurrence of `.T{display:none}`, in order. Each is a well-formed four-character token |
| StyleRules.PostStyle | proxylist.go:22-23 | the address is read from the suffix of the row that begins right after the first `</style>`, at `strings.Index` of the marker plus 8 |
| StyleRules.RowLayout | proxylist.go:22-23 | for a row `p <style> css </style> q`, where `p` holds neither marker and `css` holds no '<', the slice is `css` and the address is read from `q` |
| Rewrite.ElementAt | proxylist.go:29 | an element the patterns describe at the front of the text has the attribute sought, non-empty '<'-free content, and spells out its tags |
| Rewrite.ElementAtComplete | proxylist.go:29-45 | every such element at the front, whichever of `span` or `div` opens and closes it, is the one reported |
| Rewrite.ElementOfComplete | proxylist.go:29-45 | each element pass matches at the front exactly the elements it is after |
| Rewrite.TrailingRunAt | proxylist.go:48 | the final trim matches at the front iff the text starts with a run of at least 7 digits and dots. The group is the first min(run, 15) characters of that run, and the match then runs to the next '\n' or to the end of the text, without taking the '\n' |
| Rewrite.TrailingRunLanguage | proxylist.go:48 | with `([0-9\.]{7,15}).*` read as a language of splits (a group of 7 to 15 digits and dots, then a part without '\n'), the matcher succeeds iff some split exists. The split it reports is in the language, its group is the longest, and its `.*` part is the longest for that group |
| Rewrite.EmptySpanAt | proxylist.go:26 | the empty-span pass matches exactly where the literal `<span></span>` begins, takes its 13 characters and deletes them |
| Rewrite.ElementOf | proxylist.go:29-45 | an element reported for a pass is one the pass is after, and it begins the text |
| Rewrite.MatchAt | proxylist.go:26-49 | every pass's match is non-empty and lies inside the text. Every pass except the trim matches only at a '<' and replaces the match with something shorter |
| Rewrite.ReplaceAll | proxylist.go:26-49 | Go's non-overlapping leftmost scan never lengthens the text |
| Rewrite.MatchAtEmbeds | proxylist.go:26-49 | a replacement is always taken from the text it replaces |
| Rewrite.ReplaceAllSkip | proxylist.go:26-49 | text before the first position where a match can start is copied through unchanged |
| Rewrite.ReplaceAllLeftmost | proxylist.go:26-49 | the leftmost match is replaced, the text before it is kept, and the scan resumes right after it |
| Rewrite.ReplaceAllNoMatch | proxylist.go:26-49 | a text with no match passes unchanged |
| Rewrite.ReplaceAllLength | proxylist.go:26-49 | no pass lengthens the text, and every pass except the trim shortens it as soon as it matches |
| Rewrite.ReplaceAllUnchanged | proxylist.go:26-45 | a pass other than the trim leaves the text unchanged iff its pattern matches nowhere in it |
| Rewrite.ReplaceAllEmbeds | proxylist.go:26-49 | every pass only deletes: its output is a subsequence of its input |
| Rewrite.TrailingRunStopsAtNewline | proxylist.go:48 | neither the run nor `.*` crosses a line break |
| Rewrite.TrimPerLine | proxylist.go:48-49 | the final trim works line by line: line breaks are kept, and each line is trimmed as if it stood alone |
| Rewrite.TrimLine | proxylist.go:48-49 | on one line, the trim keeps the text before the leftmost run plus at most 15 characters of that run, and drops the rest of the line |
| Rewrite.TrimAfterAddress | proxylist.go:48-49 | an address of 7 to 15 digits and dots, followed by other text on its line, is all that remains |
| Rewrite.TrimWithoutRun | proxylist.go:48-49 | a text with no run of 7 digits and dots passes the trim unchanged |
| Markup.NoMatchAtClose | proxylist.go:26-45 | no pass before the trim matches at a closing tag |
| Markup.SameElement | proxylist.go:29-45 | two well-formed elements that begin the same text are the same element |
| Markup.NoMatchAtElement | proxylist.go:26-45 | a pass matches at a well-formed element only when the element is one it is after |
| Markup.EmptySpanStep | proxylist.go:26 | the empty-span pass deletes an empty span, and no element pass matches one |
| Markup.ElemHit | proxylist.go:29-45 | an element a pass is after is replaced by nothing (deleting passes) or by its content (unwrapping passes) |
| Markup.ElemMiss | proxylist.go:29-45 | an element a pass is not after is copied through |
| Markup.PieceStep | proxylist.go:26-45 | each pass before the trim maps a well-formed piece, and whatever follows it, piece by piece |
| Markup.OtherTagStep | proxylist.go:26-45 | every pass before the trim copies a tag that begins with its only '<', ends with '>' and opens no `span` or `div` through unchanged |
| Markup.PassPiecewise | proxylist.go:26-45 | on well-formed markup each pass before the trim acts piece by piece and keeps the markup well formed |
| Address.ClassPasses | proxylist.go:34-37 | one hidden-class pass per token, in the order of the tokens |
| Address.ClassPassesSnoc | proxylist.go:34-37 | one more loop iteration applies the next token's pass to what the earlier ones left |
| Address.RunAppend | proxylist.go:26-49 | running two lists of passes is running the first, then the second on its output |
| Address.Pipeline | proxylist.go:26-49 | the pass list has five passes plus one per token: the empty spans, the inline-hidden elements, one pass per token in order, the inline-shown elements, the other classes, and the trim last and only there |
| Address.CleanAddress | proxylist.go:22-49 | the text `ParseAddress` computes is obtained from the markup after the first `</style>` by deleting characters |
| Address.PipelineSteps | proxylist.go:26-49 | the list of passes is, statement by statement, what `ParseAddress` runs |
| Address.CleanAddressSteps | proxylist.go:22-49 | the cleaned address of a row is the last three passes applied to what the token loop leaves |
| Address.PipelineSplit | proxylist.go:48-49 | the cleaned text is the final trim of what the other passes leave |
| Address.RunEmbeds | proxylist.go:26-49 | the passes together only delete |
| Address.AddressFromPostStyle | proxylist.go:22-23 | the address is never longer than the markup after the first `</style>` |
| Address.AddressIgnoresPrefix | proxylist.go:22-23 | two rows with the same stylesheet and the same markup decode alike, whatever precedes the stylesheet |
| Address.TokenPass | proxylist.go:35 | a hidden token holds no '"', so the class attribute of the spliced pattern ends where the token does, and the token's pass falls under the lemmas about well-formed markup |
| Address.ClassPassesStep | proxylist.go:34-37 | the token passes delete an element exactly when its class is one of the tokens |
| Address.CleanPassesPiece | proxylist.go:26-45 | after the passes before the trim, each well-formed piece is reduced to its visible text; another tag is kept as it is |
| Address.RemainsVisible | proxylist.go:26-45 | what remains of well-formed markup is its visible text, piece by piece |
| Address.DecodeMarkup | proxylist.go:26-49 | on well-formed markup the result is the final trim of the visible text. Empty spans, `display:none` elements and elements of hidden classes go with their content; every other element is replaced by its content; plain text and other tags stay |
| Address.DecodeRow | proxylist.go:21-49 | for a row `p <style> css </style> markup`, the address is the final trim of the markup's visible text under the tokens `css` hides |
| Address.DecodeRowTrimmed | proxylist.go:21-49 | when the visible text is an address of 7 to 15 digits and dots followed by text that does not continue the run, the row decodes to that address |
| Address.TagClosedRow | proxylist.go:21-54 | as `HiddenClassRow`, with a closing tag such as `</td>` right after the address: the tag survives the earlier passes and the trim removes it, so the row decodes to the address |
| Address.HiddenClassRow | proxylist.go:21-54 | with a stylesheet that hides class `h` and shows `v`, an `h` span around a decoy and a `v` span around the address, the decoy goes and the address stays |
| Address.TwoRuleSheet | proxylist.go:62-69 | a stylesheet with a hiding rule and a showing rule hides exactly the first token |
| Address.HiddenStyleRow | proxylist.go:26-30 | an empty span and a `display:none` span before the address both vanish |
| Address.HiddenClassScenario | proxylist.go:21-72 | the row with stylesheet `.ab12{display:none} .cd34{display:inline}` and markup `<span class="ab12">9.9.9.9</span><span class="cd34">1.2.3.4</span>decoytrailing` decodes to `1.2.3.4` |
| Address.HiddenStyleScenario | proxylist.go:21-54 | a row with an empty stylesheet, an empty span and a `display:none` span around `8.8.8.8`, then `5.6.7.8`, decodes to `5.6.7.8` |
| Text.IndexOf | proxylist.go:22 | `strings.Index`: the first position where the literal occurs, or -1 when it occurs nowhere |
| Text.TrimSpace | proxylist.go:79 | `strings.TrimSpace`: the text between blank padding; the result is empty iff the text is all white space |
| Text.TrimSpaceIs | proxylist.go:97 | text between blank padding that neither starts nor ends with white space is given back exactly |
| Text.SpanLen | proxylist.go:29 | a greedy run of one class: the longest prefix in the class |
| Text.GreedyRun | proxylist.go:84 | a greedy run followed by a character outside its class stops exactly there |

## Left out

- `Unique` and `Filter` (proxylist.go:9-10) are fields of the class. Only the constructor writes them, setting both to 0; no parsing method touches them. The JSON tags are serialisation metadata and are not modelled.
- Go's general `regexp` engine and `MustCompile` are not modelled. Each fixed pattern is a hand-written matcher, and its completeness lemma shows it finds every match the pattern allows.
- The token spliced into the pattern at proxylist.go:35 is not escaped. The model matches it literally, which agrees with Go because a token is four characters of `[0-9a-zA-Z_\-]` and holds no metacharacter outside a class.
- Out-of-range slicing panics (proxylist.go:23 and proxylist.go:60) are preconditions: `StyleBounds` on `InvisibleTags`, `DecodeAddress` and `ParseAddress`.
- Go strings are UTF-8 bytes, and `strings.Index` and slicing count bytes. The model works on Unicode characters. Every marker and class the code uses is ASCII, so a byte slice and a character slice cut the text at the same places and give the same substrings, although their numeric offsets differ for non-ASCII text. Invalid UTF-8 is not modelled.
- Markup with nested elements, or with a bare `<span>` or `<div>` tag outside an element, is not covered by the piece lemmas (`Markup.PassPiecewise`, `Address.DecodeMarkup`). `CleanAddress` is still defined on such rows, but the model proves no statement about what they decode to.
- Fetching the page, walking the document and emitting records happen in code outside proxylist.go, which is not part of this model.
- Extract.Submatch: states the reported group, not the full `parts` slice that Go returns (the whole match is never used by the code).
