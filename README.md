# class-fold: className folding ranges

class-fold is an editor extension that offers folding ranges around
`className` attributes in HTML and JSX documents. This project models its
two folding-range providers:

- `ClassNameFoldingRangeProvider.provideFoldingRanges` runs the global
  regular expression `/className=".*"/g` over the document text. It loops
  with `exec`, and each search resumes where the previous match ended. For
  each match it turns the start and end offsets into editor lines and
  pushes one `FoldingRange(startLine, endLine)`.
- The provider registered for `typescriptreact` collects the matches of
  `/className=\{["'`].+["'`]\}/gm`. It keeps a match's range only when the
  start line and end line differ.

The model has three modules:

- `Text` (text.dfy): the four characters JavaScript's `.` refuses to match
  (`\n`, `\r`, U+2028 and U+2029), and the editor's line numbering of
  offsets.
- `ClassNamePattern` (pattern.dfy): the two patterns under JavaScript
  regular-expression semantics. It has three parts:
  - a reference predicate `IsMatch` that says which substrings the pattern
    matches;
  - the greedy matcher `MatchEnd` and the leftmost search `Exec`;
  - the global scan `Matches`.
- `FoldingProviders` (providers.dfy): the two providers, as methods with
  the source's loops, and the properties of the ranges they return.

The editor's `positionAt(offset).line` is modelled as the number of line
breaks before the offset, counting `\n`, `\r\n` (once) and a lone `\r`.
An offset past the end is clamped to the end.

## Model

| member | source | states |
|---|---|---|
| Text.LineEnd | src/extension.ts:18 | the line holding an offset, for the regular expression, runs without terminator up to the first terminator or the end of the text |
| Text.LineOf | src/extension.ts:24-25 | the editor line of an offset is never larger than the offset |
| Text.LineOfMonotone | src/extension.ts:24-25 | a later offset is never on an earlier line |
| Text.PositionLineBounded | src/extension.ts:24-25 | every clamped offset lies on a line between 0 and the number of line breaks in the text |
| Text.LineOfFlat | src/extension.ts:24-25 | a stretch of text without line terminators lies on one editor line |
| Text.LineOfCrossesBreak | src/extension.ts:24-25 | a line break between two offsets puts the later offset on a later line |
| Text.TerminatorStartsLine | src/extension.ts:24-25 | without U+2028/U+2029, a terminator before an offset puts that offset on a later line, unless the offset splits a `\r\n` |
| ClassNamePattern.LastClose | src/extension.ts:18 | finds the last offset in a window at which the closing part of the pattern ends; no closing lies after it in the window |
| ClassNamePattern.MatchEnd | src/extension.ts:18 | a match is at least as long as the shortest possible match (12 characters for `className=""`, 15 for the braced form) and lies within the text |
| ClassNamePattern.MatchHasNoTerminator | src/extension.ts:18 | no match contains a line terminator |
| ClassNamePattern.MatchEndCorrect | src/extension.ts:18 | the greedy matcher returns the longest match at the offset; it returns none exactly when the pattern cannot match there |
| ClassNamePattern.LongestMatchReachesLastClose | src/extension.ts:18 | greedy closing: after the end of a match, no closing character (`"`, or quote then `}`) occurs before the end of its line |
| ClassNamePattern.MatchToLineEnd | src/extension.ts:18 | a match reaching a line terminator or the end of the text is the one the greedy matcher returns |
| ClassNamePattern.Exec | src/extension.ts:23 | a found match starts at or after `lastIndex` and is at least 12 (or 15) characters long, so the next search starts strictly later |
| ClassNamePattern.ExecCorrect | src/extension.ts:18-23 | `exec` returns the leftmost, longest match at or after `lastIndex`; it returns null only when no match starts at or after `lastIndex` |
| ClassNamePattern.MatchesInScanOrder | src/extension.ts:23 | the matches of the scan lie inside the text and do not overlap; each ends no later than the next starts, so start offsets strictly ascend |
| ClassNamePattern.MatchesAreLongestMatches | src/extension.ts:18-23 | every match of the scan is the longest match of the pattern at its start |
| ClassNamePattern.ScanSpan | src/extension.ts:18-23 | a single match of the scan is a match of the pattern and ends no later than the next one starts |
| ClassNamePattern.ScanSpanIsLongest | src/extension.ts:18-23 | a single match of the scan is the longest match at its start |
| ClassNamePattern.SpanShape | src/extension.ts:18 | every match begins with `className="` and ends with `"`, or begins with `className={` and a quote and ends with a quote and `}`; it is at least the minimum length |
| ClassNamePattern.MatchesComplete | src/extension.ts:23 | the scan misses nothing: every offset where the pattern matches lies inside a match of the scan, so no match starts in a gap or after the last match |
| ClassNamePattern.JoinMatches | src/extension.ts:18 | two matches with no terminator between them form one match from the first opening to the second closing |
| ClassNamePattern.TerminatorBetweenMatches | src/extension.ts:18-23 | consecutive matches of the scan are separated by a line terminator |
| ClassNamePattern.AttributeIsLongestMatch | src/extension.ts:18 | a quoted attribute with no further `"` after it on its line is the longest match at its start |
| ClassNamePattern.MatchStartsAtAttribute | src/extension.ts:18-23 | when no `"` precedes the attribute on its line, no match that starts earlier reaches into the attribute |
| ClassNamePattern.AttributeFoundWhole | src/extension.ts:11-23 | a quoted attribute anywhere in a document, with no other `"` on its line, is found whole by the scan, even when its value holds quotes |
| ClassNamePattern.QuotedAttributeMatchesWhole | src/extension.ts:11-18 | a text consisting of one quoted attribute, whose value has no terminator, has that whole attribute as its only match |
| ClassNamePattern.BracedQuotesIndependent | src/extension.ts:54 | the braced pattern accepts any of `"`, `'` and a backtick before and after the value, and the two need not be equal |
| FoldingProviders.ProvideFoldingRanges | src/extension.ts:6-30 | the provider returns exactly one range per match of the scan, in scan order, holding the lines of the match's start and end; each range has start equal to end and at most the number of line breaks in the text |
| FoldingProviders.MatchLineGetsRange | src/extension.ts:8-14 | every line on which `className="…"` has a closing `"` gets a range that starts and ends on that line, whatever else the line holds |
| FoldingProviders.AttributeGetsRange | src/extension.ts:11-27 | a quoted attribute with no other `"` on its line is matched whole, and its range starts and ends on the attribute's line |
| FoldingProviders.DocCommentLineFolds | src/extension.ts:10-14 | the example line `<div className="foo bar baz">` gets the range (0, 0) |
| FoldingProviders.AttributeAfterIdFolds | src/extension.ts:8-27 | the line `<div id="x" className="foo">`, with another quoted attribute before className, gets the range (0, 0) |
| FoldingProviders.KeepMultiLineKeepsExactly | src/extension.ts:64-65 | the `start !== end` filter keeps exactly the ranges whose start and end differ and adds none |
| FoldingProviders.ProvideMultiLineRanges | src/extension.ts:53-66 | the braced provider returns the filtered ranges of the braced matches, in order, and that list is always empty |
| FoldingProviders.BracedRangesAllDropped | src/extension.ts:54-66 | because every braced match lies on one line, the filter drops every braced range |
| FoldingProviders.SingleLineRangesAllDropped | src/extension.ts:64-65 | the filter drops every range that starts and ends on the same line |
| FoldingProviders.RangesSingleLine | src/extension.ts:13-14 | every range of either pattern starts and ends on the line of its attribute, and that line exists in the text |
| FoldingProviders.SpanOnOneLine | src/extension.ts:24-25 | a match's start and end offsets lie on the same editor line |
| FoldingProviders.NextMatchOnLaterLine | src/extension.ts:18-25 | without U+2028/U+2029, the next match starts on a later editor line than the current one |
| FoldingProviders.RangesOnDistinctLines | src/extension.ts:18-27 | without U+2028/U+2029, the start lines of the ranges strictly increase, so there is at most one range per line |
| FoldingProviders.SeparatedAttributesMatches | src/extension.ts:18-23 | in two attributes separated only by U+2028, the scan finds both, because U+2028 ends the first match |
| FoldingProviders.TwoRangesOnOneLine | src/extension.ts:18-27 | with U+2028 in the text, two ranges can share an editor line; the distinct-lines property needs its precondition |
| FoldingProviders.SeparatedAttributesOnOneLine | src/extension.ts:24-25 | every offset of that two-attribute text is on editor line 0 |
| FoldingProviders.LineOfWithoutBreaks | src/extension.ts:24-25 | a text without `\n` and `\r` has every offset on line 0 |

## Left out

- Activation and registration are host glue and are not modelled: `activate`, `registerFoldingRangeProvider`, `context.subscriptions`, the language list and the `console.log` calls (src/extension.ts:35-40, 58, 81, 84-89).
- The `editor.fold` commands (src/extension.ts:69-75) are not modelled. They are asynchronous editor commands with no result in the code.
- The `context` and `token` parameters (src/extension.ts:6) are not modelled. The provider never reads them and has no cancellation logic.
- `positionAt` itself is not modelled; `Text.LineOf` stands in for it, with `\n`, `\r\n` and `\r` as the line breaks. U+2028 and U+2029 do not break a line for it.
- The braced provider's offsets are not modelled as written. With the `g` flag, `text.match` returns strings, so `match.index` is undefined. The `forEach` callback is also never closed at src/extension.ts:67, so the file does not compile. The model gives each match its true start and end offsets, which is what the code evidently means; the resulting empty list holds for those offsets.
- The `FoldingRangeKind.Region` kind of the braced ranges (src/extension.ts:61) is not modelled. It does not affect which ranges are returned.
- FoldingProviders.RangesOnDistinctLines: "at most one range per line" is proved only for texts without U+2028 and U+2029. These end a match for the regular expression but not the editor's line, and FoldingProviders.TwoRangesOnOneLine shows two ranges on one line.
- Offsets are not counted in UTF-16 code units. JavaScript's `match.index` and `positionAt` count UTF-16 code units, while the model's offsets count characters (Unicode scalar values), so a lone surrogate cannot be represented. The lines of the ranges are the same either way.
