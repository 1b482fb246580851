/** The two folding-range providers of the extension: the className provider
    registered for html, javascriptreact and typescriptreact, and the
    provider for braced className values registered for typescriptreact. */
module FoldingProviders {
  import opened Text
  import opened ClassNamePattern

  /** `new vscode.FoldingRange(start, end)`: the first and last line of a fold. */
  datatype FoldingRange = FoldingRange(start: nat, end: nat)

  /** The range built for one match: the lines of its start and end offsets. */
  function RangeOf(text: string, s: Span): FoldingRange {
    FoldingRange(PositionLine(text, s.start), PositionLine(text, s.end))
  }

  /** One range per match, in the order of the matches. */
  function RangesOf(text: string, spans: seq<Span>): seq<FoldingRange> {
    seq(|spans|, i requires 0 <= i < |spans| => RangeOf(text, spans[i]))
  }

  /** The `start !== end` test: the ranges that span more than one line, in order. */
  function KeepMultiLine(ranges: seq<FoldingRange>): seq<FoldingRange> {
    if ranges == [] then []
    else
      var last := ranges[|ranges| - 1];
      KeepMultiLine(ranges[..|ranges| - 1]) + (if last.start != last.end then [last] else [])
  }

  /** The filter keeps exactly the multi-line ranges, and nothing else. */
  lemma {:induction false} KeepMultiLineKeepsExactly(ranges: seq<FoldingRange>)
    ensures forall r :: r in KeepMultiLine(ranges) <==> r in ranges && r.start != r.end
    ensures |KeepMultiLine(ranges)| <= |ranges|
  {
    if ranges != [] {
      var init, last := ranges[..|ranges| - 1], ranges[|ranges| - 1];
      KeepMultiLineKeepsExactly(init);
      assert ranges == init + [last];
    }
  }

  /** `ClassNameFoldingRangeProvider.provideFoldingRanges`: runs
      /className=".*"/g over the text with `exec`, each search starting at
      the previous match's end, and pushes one range per match. */
  method ProvideFoldingRanges(text: string) returns (foldingRanges: seq<FoldingRange>)
    ensures foldingRanges == RangesOf(text, Matches(QuotedValue, text, 0))
    ensures forall i :: 0 <= i < |foldingRanges| ==>
              foldingRanges[i].start == foldingRanges[i].end <= LineCount(text)
  {
    foldingRanges := [];
    var lastIndex := 0;
    ghost var scanned: seq<Span> := [];
    var found := Exec(QuotedValue, text, lastIndex);
    while found.Some?
      invariant lastIndex <= |text|
      invariant found == Exec(QuotedValue, text, lastIndex)
      invariant Matches(QuotedValue, text, 0) == scanned + Matches(QuotedValue, text, lastIndex)
      invariant foldingRanges == RangesOf(text, scanned)
      decreases |text| - lastIndex
    {
      var span := found.value;
      var foldingRange := FoldingRange(PositionLine(text, span.start), PositionLine(text, span.end));
      foldingRanges := foldingRanges + [foldingRange];
      ghost var rest := Matches(QuotedValue, text, span.end);
      assert Matches(QuotedValue, text, lastIndex) == [span] + rest;
      assert scanned + ([span] + rest) == (scanned + [span]) + rest;
      RangesOfAppend(text, scanned, span);
      scanned := scanned + [span];
      lastIndex := span.end;
      found := Exec(QuotedValue, text, lastIndex);
    }
    RangesSingleLine(QuotedValue, text, foldingRanges);
  }

  /** The provider for braced values: `text.match` collects every match of
      /className=\{["'`].+["'`]\}/gm, and `forEach` pushes the range of each
      match whose start and end lines differ. */
  method ProvideMultiLineRanges(text: string) returns (foldingRanges: seq<FoldingRange>)
    ensures foldingRanges == KeepMultiLine(RangesOf(text, Matches(BracedValue, text, 0)))
    ensures foldingRanges == []
  {
    var matches := Matches(BracedValue, text, 0);
    foldingRanges := [];
    for i := 0 to |matches|
      invariant foldingRanges == KeepMultiLine(RangesOf(text, matches[..i]))
    {
      var foldingRange := RangeOf(text, matches[i]);
      RangesOfAppend(text, matches[..i], matches[i]);
      assert matches[..i + 1] == matches[..i] + [matches[i]];
      KeepMultiLineAppend(RangesOf(text, matches[..i]), foldingRange);
      if foldingRange.start != foldingRange.end {
        foldingRanges := foldingRanges + [foldingRange];
      }
    }
    assert matches[..|matches|] == matches;
    BracedRangesAllDropped(text);
  }

  /** Every braced match lies on one line, so the filter drops all of them. */
  lemma BracedRangesAllDropped(text: string)
    ensures KeepMultiLine(RangesOf(text, Matches(BracedValue, text, 0))) == []
  {
    var ranges := RangesOf(text, Matches(BracedValue, text, 0));
    RangesSingleLine(BracedValue, text, ranges);
    SingleLineRangesAllDropped(ranges);
  }

  lemma RangesOfAppend(text: string, spans: seq<Span>, s: Span)
    ensures RangesOf(text, spans + [s]) == RangesOf(text, spans) + [RangeOf(text, s)]
  {
  }

  lemma KeepMultiLineAppend(ranges: seq<FoldingRange>, r: FoldingRange)
    ensures KeepMultiLine(ranges + [r]) == KeepMultiLine(ranges) + (if r.start != r.end then [r] else [])
  {
    assert (ranges + [r])[..|ranges|] == ranges;
  }

  // ---------------------------------------------------------------------
  // Properties of the ranges

  /** Every range of either provider starts and ends on the line of its
      className attribute, and that line exists in the text. */
  lemma RangesSingleLine(pat: Pattern, text: string, ranges: seq<FoldingRange>)
    requires ranges == RangesOf(text, Matches(pat, text, 0))
    ensures forall i :: 0 <= i < |ranges| ==> ranges[i].start == ranges[i].end <= LineCount(text)
  {
    var m := Matches(pat, text, 0);
    forall i | 0 <= i < |m|
      ensures RangeOf(text, m[i]).start == RangeOf(text, m[i]).end <= LineCount(text)
    {
      SpanOnOneLine(pat, text, i);
      PositionLineBounded(text, m[i].end);
    }
  }

  /** No two ranges share a line: the start lines strictly increase, as long
      as the text holds no U+2028 or U+2029 (which end a line for the regular
      expression but not for the editor). */
  lemma RangesOnDistinctLines(pat: Pattern, text: string, ranges: seq<FoldingRange>)
    requires NoSeparators(text)
    requires ranges == RangesOf(text, Matches(pat, text, 0))
    ensures forall i, j :: 0 <= i < j < |ranges| ==> ranges[i].start < ranges[j].start
  {
    var m := Matches(pat, text, 0);
    MatchesInScanOrder(pat, text, 0);
    forall i, j | 0 <= i < j < |m|
      ensures PositionLine(text, m[i].start) < PositionLine(text, m[j].start)
    {
      NextMatchOnLaterLine(pat, text, i);
      LineOfMonotone(text, m[i + 1].start, m[j].start);
    }
  }

  /** A span of the scan starts and ends on the same editor line. */
  lemma SpanOnOneLine(pat: Pattern, text: string, i: nat)
    requires i < |Matches(pat, text, 0)|
    ensures var s := Matches(pat, text, 0)[i];
            s.start <= s.end <= |text| && LineOf(text, s.start) == LineOf(text, s.end)
  {
    var s := Matches(pat, text, 0)[i];
    ScanSpan(pat, text, 0, i);
    MatchHasNoTerminator(pat, text, s.start, s.end);
    LineOfFlat(text, s.start, s.end);
  }

  /** The step of RangesOnDistinctLines: a line break lies between a span's
      line and the next span's start. */
  lemma NextMatchOnLaterLine(pat: Pattern, text: string, i: nat)
    requires NoSeparators(text)
    requires i + 1 < |Matches(pat, text, 0)|
    ensures var m := Matches(pat, text, 0);
            m[i].start <= |text| && m[i + 1].start <= |text|
            && LineOf(text, m[i].start) < LineOf(text, m[i + 1].start)
  {
    var m := Matches(pat, text, 0);
    var start, end, next := m[i].start, m[i].end, m[i + 1].start;
    assert start <= end <= |text| && LineOf(text, start) == LineOf(text, end) by {
      SpanOnOneLine(pat, text, i);
    }
    assert next < |text| && text[next] == 'c' by {
      SpanShape(pat, text, 0, i + 1);
      assert text[next] == text[next..next + 11][0];
    }
    assert exists t :: end <= t < next && IsLineTerminator(text[t]) by {
      TerminatorBetweenMatches(pat, text, 0, i);
    }
    var t :| end <= t < next && IsLineTerminator(text[t]);
    assert LineOf(text, t) < LineOf(text, next) by {
      TerminatorStartsLine(text, t, next);
    }
    LineOfMonotone(text, end, t);
  }

  /** Wherever the quoted pattern matches, the line of the match gets a
      range that starts and ends on it, whatever else the line holds. */
  lemma MatchLineGetsRange(text: string, q: nat, e: nat)
    requires IsMatch(QuotedValue, text, q, e)
    ensures q <= |text|
    ensures var line := LineOf(text, q);
            FoldingRange(line, line) in RangesOf(text, Matches(QuotedValue, text, 0))
  {
    var m := Matches(QuotedValue, text, 0);
    MatchesComplete(QuotedValue, text, 0, q, e);
    var i :| 0 <= i < |m| && m[i].start <= q < m[i].end;
    ScanSpan(QuotedValue, text, 0, i);
    SpanOnOneLine(QuotedValue, text, i);
    MatchHasNoTerminator(QuotedValue, text, m[i].start, m[i].end);
    LineOfFlat(text, m[i].start, q);
    assert RangesOf(text, m)[i] == RangeOf(text, m[i]);
  }

  /** A quoted attribute with no other `"` on its line is matched whole, and
      its range starts and ends on the attribute's line. */
  lemma AttributeGetsRange(pre: string, value: string, post: string)
    requires NoTerminator(value, 0, |value|)
    requires QuoteFreeLastLine(pre) && QuoteFreeFirstLine(post)
    ensures var text := pre + QuotedOpening + value + "\"" + post;
            Span(|pre|, |pre| + 12 + |value|) in Matches(QuotedValue, text, 0)
    ensures var text := pre + QuotedOpening + value + "\"" + post;
            var line := LineOf(text, |pre|);
            FoldingRange(line, line) in RangesOf(text, Matches(QuotedValue, text, 0))
  {
    var text := pre + QuotedOpening + value + "\"" + post;
    var m := Matches(QuotedValue, text, 0);
    AttributeFoundWhole(pre, value, post);
    var i :| 0 <= i < |m| && m[i] == Span(|pre|, |pre| + 12 + |value|);
    SpanOnOneLine(QuotedValue, text, i);
    assert RangesOf(text, m)[i] == RangeOf(text, m[i]);
  }

  /** The attribute of the provider's own doc comment. */
  const DocCommentLine: string := "<div className=\"foo bar baz\">"

  /** The doc comment's attribute is folded on its own line, line 0. */
  lemma DocCommentLineFolds(text: string)
    requires text == DocCommentLine
    ensures FoldingRange(0, 0) in RangesOf(text, Matches(QuotedValue, text, 0))
  {
    var pre, value, post := "<div ", "foo bar baz", ">";
    DocCommentLineParts(pre, value, post);
    AttributeGetsRange(pre, value, post);
    DocCommentLineIsLine0(text);
  }

  lemma DocCommentLineIsLine0(text: string)
    requires text == DocCommentLine
    ensures LineOf(text, 5) == 0
  {
    assert '\n' !in text && '\r' !in text;
    LineOfWithoutBreaks(text, 5);
  }

  lemma DocCommentLineParts(pre: string, value: string, post: string)
    requires pre == "<div " && value == "foo bar baz" && post == ">"
    ensures DocCommentLine == pre + QuotedOpening + value + "\"" + post && |pre| == 5
    ensures NoTerminator(value, 0, |value|)
    ensures QuoteFreeLastLine(pre) && QuoteFreeFirstLine(post)
  {
    assert '"' !in pre && '"' !in post;
    forall k | 0 <= k < |value|
      ensures !IsLineTerminator(value[k])
    {
      assert value[k] in value;
    }
  }

  /** A line with another quoted attribute before the className attribute. */
  const AttributeAfterId: string := "<div id=\"x\" className=\"foo\">"

  /** That line is folded too, on line 0. */
  lemma AttributeAfterIdFolds(text: string)
    requires text == AttributeAfterId
    ensures FoldingRange(0, 0) in RangesOf(text, Matches(QuotedValue, text, 0))
  {
    assert IsMatch(QuotedValue, text, 12, 27) by {
      assert text[12..23] == QuotedOpening;
      assert text[23..26] == "foo";
    }
    MatchLineGetsRange(text, 12, 27);
    AttributeAfterIdIsLine0(text);
  }

  lemma AttributeAfterIdIsLine0(text: string)
    requires text == AttributeAfterId
    ensures LineOf(text, 12) == 0
  {
    assert '\n' !in text && '\r' !in text;
    LineOfWithoutBreaks(text, 12);
  }

  /** Two className attributes separated by U+2028 rather than a line break. */
  const SeparatedAttributes: string := QuotedOpening + "a\"\U{2028}" + QuotedOpening + "b\""

  /** The scan finds both attributes: U+2028 ends the first match. */
  lemma SeparatedAttributesMatches()
    ensures Matches(QuotedValue, SeparatedAttributes, 0) == [Span(0, 13), Span(14, 27)]
  {
    var text := SeparatedAttributes;
    var second := QuotedOpening + "b\"";
    assert |text| == 27;
    assert text[0..11] == QuotedOpening;
    assert text[11] == 'a' && text[12] == '"' && text[13] == '\U{2028}';
    assert IsMatch(QuotedValue, text, 0, 13);
    MatchToLineEnd(QuotedValue, text, 0, 13);
    assert text[13..24][0] != 'c';
    assert MatchEnd(QuotedValue, text, 13) == None;
    assert text[14..27] == second;
    assert text[14..25] == QuotedOpening;
    assert text[25] == 'b' && text[26] == '"';
    assert IsMatch(QuotedValue, text, 14, 27);
    MatchToLineEnd(QuotedValue, text, 14, 27);
    assert Matches(QuotedValue, text, 27) == [];
    assert Exec(QuotedValue, text, 13) == Some(Span(14, 27));
  }

  /** Without the precondition of RangesOnDistinctLines, two ranges can share
      a line: U+2028 ends a match but not the editor's line. */
  lemma TwoRangesOnOneLine(ranges: seq<FoldingRange>)
    requires ranges == RangesOf(SeparatedAttributes, Matches(QuotedValue, SeparatedAttributes, 0))
    ensures |ranges| == 2 && ranges[0].start == ranges[1].start == 0
  {
    SeparatedAttributesMatches();
    SeparatedAttributesOnOneLine(14);
    assert ranges[1] == RangeOf(SeparatedAttributes, Span(14, 27));
  }

  lemma SeparatedAttributesOnOneLine(offset: nat)
    requires offset <= |SeparatedAttributes|
    ensures LineOf(SeparatedAttributes, offset) == 0
  {
    assert '\n' !in SeparatedAttributes && '\r' !in SeparatedAttributes;
    LineOfWithoutBreaks(SeparatedAttributes, offset);
  }

  lemma {:induction false} LineOfWithoutBreaks(text: string, offset: nat)
    requires '\n' !in text && '\r' !in text
    requires offset <= |text|
    ensures LineOf(text, offset) == 0
  {
    if offset > 0 {
      LineOfWithoutBreaks(text, offset - 1);
      assert text[offset - 1] in text;
    }
  }

  /** The `start !== end` filter drops every single-line range; so, as every
      braced match lies on one line, the braced provider returns nothing. */
  lemma {:induction false} SingleLineRangesAllDropped(ranges: seq<FoldingRange>)
    requires forall i :: 0 <= i < |ranges| ==> ranges[i].start == ranges[i].end
    ensures KeepMultiLine(ranges) == []
  {
    if ranges != [] {
      SingleLineRangesAllDropped(ranges[..|ranges| - 1]);
    }
  }
}
