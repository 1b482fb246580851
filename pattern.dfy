/** The two className patterns of the folding providers, matched the way a
    JavaScript global regular expression matches them: greedy, leftmost
    first, and each search resuming where the previous match ended. */
module ClassNamePattern {
  import opened Text

  datatype Option<T> = None | Some(value: T)

  /** QuotedValue is /className=".*"/g and BracedValue is
      /className=\{["'`].+["'`]\}/gm (the `m` flag only changes `^` and `$`,
      which the pattern does not use). */
  datatype Pattern = QuotedValue | BracedValue

  /** A match: the offsets text[start..end] it covers. */
  datatype Span = Span(start: nat, end: nat)

  const QuotedOpening: string := "className=\""
  const BracedOpening: string := "className={"

  predicate IsQuote(c: char) {
    c == '"' || c == '\'' || c == '`'
  }

  /** Characters matched before the repeated `.`: the literal, plus the
      opening quote class for BracedValue. */
  function OpeningLength(pat: Pattern): nat {
    match pat
    case QuotedValue => 11
    case BracedValue => 12
  }

  /** Characters matched after the repeated `.`. */
  function ClosingLength(pat: Pattern): nat {
    match pat
    case QuotedValue => 1
    case BracedValue => 2
  }

  /** `.*` may match nothing, `.+` needs one character. */
  function MinBody(pat: Pattern): nat {
    match pat
    case QuotedValue => 0
    case BracedValue => 1
  }

  function MinLength(pat: Pattern): nat {
    OpeningLength(pat) + MinBody(pat) + ClosingLength(pat)
  }

  /** The opening part of the pattern matches at `p`. */
  predicate OpensAt(pat: Pattern, text: string, p: nat)
    requires p + OpeningLength(pat) <= |text|
  {
    match pat
    case QuotedValue => text[p..p + 11] == QuotedOpening
    case BracedValue => text[p..p + 11] == BracedOpening && IsQuote(text[p + 11])
  }

  /** The closing part of the pattern ends with the character at `k`. */
  predicate ClosesAt(pat: Pattern, text: string, k: nat)
    requires k < |text|
  {
    match pat
    case QuotedValue => text[k] == '"'
    case BracedValue => 1 <= k && text[k] == '}' && IsQuote(text[k - 1])
  }

  /** The pattern matches exactly text[p..e]: the opening at `p`, a run of
      non-terminators of at least the minimum length, the closing ending at
      `e - 1`. This is the regular expression's meaning, with no search. */
  predicate IsMatch(pat: Pattern, text: string, p: nat, e: nat) {
    p + MinLength(pat) <= e <= |text|
    && OpensAt(pat, text, p)
    && ClosesAt(pat, text, e - 1)
    && NoTerminator(text, p + OpeningLength(pat), e - ClosingLength(pat))
  }

  /** The greedy repetition: the match at `p` ending at `e` is the longest one at `p`. */
  ghost predicate IsLongestMatch(pat: Pattern, text: string, p: nat, e: nat) {
    IsMatch(pat, text, p, e) && forall e': nat :: IsMatch(pat, text, p, e') ==> e' <= e
  }

  /** No match starts at an offset in [lo, hi). */
  ghost predicate NoMatchIn(pat: Pattern, text: string, lo: nat, hi: nat) {
    forall q: nat, e: nat :: lo <= q < hi ==> !IsMatch(pat, text, q, e)
  }

  /** The last offset in [lo, hi) at which the closing part ends. */
  function LastClose(pat: Pattern, text: string, lo: nat, hi: nat): (k: Option<nat>)
    requires hi <= |text|
    ensures k.Some? ==> lo <= k.value < hi && ClosesAt(pat, text, k.value)
    ensures forall j :: (if k.Some? then k.value + 1 else lo) <= j < hi ==> !ClosesAt(pat, text, j)
    decreases hi
  {
    if hi <= lo then None
    else if ClosesAt(pat, text, hi - 1) then Some(hi - 1)
    else LastClose(pat, text, lo, hi - 1)
  }

  /** The end of the match at `p`, if the pattern matches there: the greedy
      `.*` / `.+` runs to the end of the line and gives back characters until
      the closing part matches, so the match ends at the line's last closing. */
  function MatchEnd(pat: Pattern, text: string, p: nat): (r: Option<nat>)
    requires p <= |text|
    ensures r.Some? ==> p + MinLength(pat) <= r.value <= |text|
  {
    if p + OpeningLength(pat) > |text| || !OpensAt(pat, text, p) then None
    else
      match LastClose(pat, text, p + MinLength(pat) - 1, LineEnd(text, p + OpeningLength(pat)))
      case None => None
      case Some(k) => Some(k + 1)
  }

  /** `regex.exec(text)` with `lastIndex == from`: the leftmost match
      starting at or after `from`. */
  function Exec(pat: Pattern, text: string, from: nat): (r: Option<Span>)
    requires from <= |text|
    ensures r.Some? ==> from <= r.value.start && r.value.start + MinLength(pat) <= r.value.end <= |text|
    decreases |text| - from
  {
    match MatchEnd(pat, text, from)
    case Some(e) => Some(Span(from, e))
    case None => if from == |text| then None else Exec(pat, text, from + 1)
  }

  /** All matches of the global scan from `from` on, in scan order: each
      search resumes at the end of the previous match. */
  function Matches(pat: Pattern, text: string, from: nat): (spans: seq<Span>)
    requires from <= |text|
    decreases |text| - from
  {
    match Exec(pat, text, from)
    case None => []
    case Some(s) => [s] + Matches(pat, text, s.end)
  }

  // ---------------------------------------------------------------------
  // The shape of a match

  /** A match never contains a line terminator: the literal and the closing
      characters are not terminators, and neither is anything `.` matches. */
  lemma MatchHasNoTerminator(pat: Pattern, text: string, p: nat, e: nat)
    requires IsMatch(pat, text, p, e)
    ensures NoTerminator(text, p, e)
  {
    forall k | p <= k < e
      ensures !IsLineTerminator(text[k])
    {
      if k < p + 11 {
        assert text[k] == text[p..p + 11][k - p];
      }
    }
  }

  /** The greedy search finds the longest match at `p`, and finds none only
      where the pattern cannot match at all. */
  lemma MatchEndCorrect(pat: Pattern, text: string, p: nat)
    requires p <= |text|
    ensures MatchEnd(pat, text, p).Some? ==> IsLongestMatch(pat, text, p, MatchEnd(pat, text, p).value)
    ensures MatchEnd(pat, text, p).None? ==> forall e :: !IsMatch(pat, text, p, e)
  {
    forall e: nat | IsMatch(pat, text, p, e)
      ensures MatchEnd(pat, text, p).Some? && e <= MatchEnd(pat, text, p).value
    {
      MatchHasNoTerminator(pat, text, p, e);
      var hi := LineEnd(text, p + OpeningLength(pat));
      assert e <= hi;
    }
    if MatchEnd(pat, text, p).Some? {
      var e := MatchEnd(pat, text, p).value;
      var hi := LineEnd(text, p + OpeningLength(pat));
      assert NoTerminator(text, p + OpeningLength(pat), hi);
      assert IsMatch(pat, text, p, e);
    }
  }

  /** Greedy closing: after a match, no closing occurs before the end of its line. */
  lemma LongestMatchReachesLastClose(pat: Pattern, text: string, p: nat, e: nat, k: nat)
    requires IsLongestMatch(pat, text, p, e)
    requires e <= k < LineEnd(text, e)
    ensures !ClosesAt(pat, text, k)
  {
    if ClosesAt(pat, text, k) {
      MatchHasNoTerminator(pat, text, p, e);
      forall j | p + OpeningLength(pat) <= j < k + 1 - ClosingLength(pat)
        ensures !IsLineTerminator(text[j])
      {
        if e <= j {
          assert NoTerminator(text, e, LineEnd(text, e));
        }
      }
      assert IsMatch(pat, text, p, k + 1);
      assert false;
    }
  }

  // ---------------------------------------------------------------------
  // The search and the scan

  /** `exec` returns the leftmost match at or after `from`, greedy, and
      returns nothing only when no match starts at or after `from`. */
  lemma {:induction false} ExecCorrect(pat: Pattern, text: string, from: nat)
    requires from <= |text|
    ensures Exec(pat, text, from).Some? ==>
              var s := Exec(pat, text, from).value;
              from <= s.start && IsLongestMatch(pat, text, s.start, s.end)
              && NoMatchIn(pat, text, from, s.start)
    ensures Exec(pat, text, from).None? ==> NoMatchIn(pat, text, from, |text| + 1)
    decreases |text| - from
  {
    MatchEndCorrect(pat, text, from);
    var r := MatchEnd(pat, text, from);
    if r.None? && from < |text| {
      ExecCorrect(pat, text, from + 1);
      var hi := if Exec(pat, text, from).Some? then Exec(pat, text, from).value.start else |text| + 1;
      forall q: nat, e: nat | from <= q < hi
        ensures !IsMatch(pat, text, q, e)
      {
        if q > from {
          assert NoMatchIn(pat, text, from + 1, hi);
        }
      }
    }
  }

  /** The spans of the scan lie at or after `from`, within the text, and in
      scan order: each ends no later than the next one starts. */
  lemma {:induction false} MatchesInScanOrder(pat: Pattern, text: string, from: nat)
    requires from <= |text|
    ensures forall i :: 0 <= i < |Matches(pat, text, from)| ==>
              from <= Matches(pat, text, from)[i].start < Matches(pat, text, from)[i].end <= |text|
    ensures forall i, j :: 0 <= i < j < |Matches(pat, text, from)| ==>
              Matches(pat, text, from)[i].end <= Matches(pat, text, from)[j].start
    decreases |text| - from
  {
    if Exec(pat, text, from).Some? {
      var s := Exec(pat, text, from).value;
      MatchesInScanOrder(pat, text, s.end);
      ScanOrderCons(from, |text|, s, Matches(pat, text, s.end));
    }
  }

  /** Spans in scan order after `s.end`, preceded by `s`, are in scan order after `from`. */
  lemma ScanOrderCons(from: nat, n: nat, s: Span, rest: seq<Span>)
    requires from <= s.start < s.end <= n
    requires forall i :: 0 <= i < |rest| ==> s.end <= rest[i].start < rest[i].end <= n
    requires forall i, j :: 0 <= i < j < |rest| ==> rest[i].end <= rest[j].start
    ensures forall i :: 0 <= i < |[s] + rest| ==> from <= ([s] + rest)[i].start < ([s] + rest)[i].end <= n
    ensures forall i, j :: 0 <= i < j < |[s] + rest| ==> ([s] + rest)[i].end <= ([s] + rest)[j].start
  {
    var m := [s] + rest;
    forall i | 0 <= i < |m|
      ensures from <= m[i].start < m[i].end <= n
    {
      if i > 0 {
        assert m[i] == rest[i - 1];
      }
    }
    forall i, j | 0 <= i < j < |m|
      ensures m[i].end <= m[j].start
    {
      assert m[j] == rest[j - 1];
      if i > 0 {
        assert m[i] == rest[i - 1];
      }
    }
  }

  /** Every span of the scan is the longest match at its start. */
  lemma {:induction false} MatchesAreLongestMatches(pat: Pattern, text: string, from: nat)
    requires from <= |text|
    ensures forall i :: 0 <= i < |Matches(pat, text, from)| ==>
              IsLongestMatch(pat, text, Matches(pat, text, from)[i].start, Matches(pat, text, from)[i].end)
    decreases |text| - from
  {
    if Exec(pat, text, from).Some? {
      var s := Exec(pat, text, from).value;
      assert IsLongestMatch(pat, text, s.start, s.end) by {
        ExecCorrect(pat, text, from);
      }
      MatchesAreLongestMatches(pat, text, s.end);
      LongestCons(pat, text, s, Matches(pat, text, s.end));
    }
  }

  /** Prepending a longest match keeps every span a longest match. */
  lemma LongestCons(pat: Pattern, text: string, s: Span, rest: seq<Span>)
    requires IsLongestMatch(pat, text, s.start, s.end)
    requires forall i :: 0 <= i < |rest| ==> IsLongestMatch(pat, text, rest[i].start, rest[i].end)
    ensures forall i :: 0 <= i < |[s] + rest| ==>
              IsLongestMatch(pat, text, ([s] + rest)[i].start, ([s] + rest)[i].end)
  {
    var m := [s] + rest;
    forall i | 0 <= i < |m|
      ensures IsLongestMatch(pat, text, m[i].start, m[i].end)
    {
      if i > 0 {
        assert m[i] == rest[i - 1];
      }
    }
  }

  /** One span of the scan: a match at or after `from` that ends no later
      than the next span starts. */
  lemma ScanSpan(pat: Pattern, text: string, from: nat, i: nat)
    requires from <= |text| && i < |Matches(pat, text, from)|
    ensures var m := Matches(pat, text, from);
            from <= m[i].start && IsMatch(pat, text, m[i].start, m[i].end)
            && (i + 1 < |m| ==> m[i].end <= m[i + 1].start)
  {
    MatchesInScanOrder(pat, text, from);
    MatchesAreLongestMatches(pat, text, from);
  }

  /** One span of the scan is the longest match at its start. */
  lemma ScanSpanIsLongest(pat: Pattern, text: string, from: nat, i: nat)
    requires from <= |text| && i < |Matches(pat, text, from)|
    ensures var m := Matches(pat, text, from);
            IsLongestMatch(pat, text, m[i].start, m[i].end)
  {
    MatchesAreLongestMatches(pat, text, from);
  }

  /** Every span of the scan begins with the pattern's literal and ends with
      its closing characters, and is at least as long as the shortest match
      (12 characters, `className=""`, for QuotedValue), so each search starts
      strictly further on than the one before. */
  lemma SpanShape(pat: Pattern, text: string, from: nat, i: nat)
    requires from <= |text| && i < |Matches(pat, text, from)|
    ensures var s := Matches(pat, text, from)[i];
            s.start + MinLength(pat) <= s.end <= |text|
            && text[s.start..s.start + 11] == (if pat.QuotedValue? then QuotedOpening else BracedOpening)
            && (pat.QuotedValue? ==> text[s.end - 1] == '"')
            && (pat.BracedValue? ==> IsQuote(text[s.start + 11]) && IsQuote(text[s.end - 2]) && text[s.end - 1] == '}')
  {
    ScanSpan(pat, text, from, i);
  }

  /** Some span of `spans` contains offset `q`. */
  ghost predicate Covers(spans: seq<Span>, q: nat) {
    exists i :: 0 <= i < |spans| && spans[i].start <= q < spans[i].end
  }

  /** The scan misses nothing: every offset at or after `from` at which the
      pattern matches lies inside a span of the scan. So no match starts in a
      gap between two spans or after the last one. */
  lemma {:induction false} MatchesComplete(pat: Pattern, text: string, from: nat, q: nat, e: nat)
    requires from <= |text|
    requires from <= q && IsMatch(pat, text, q, e)
    ensures Covers(Matches(pat, text, from), q)
    decreases |text| - from
  {
    ExecFindsMatch(pat, text, from, q, e);
    var s := Exec(pat, text, from).value;
    if s.end <= q {
      MatchesComplete(pat, text, s.end, q, e);
    }
    CoversCons(s, Matches(pat, text, s.end), q);
  }

  /** Prepending a span that starts at or before `q` keeps `q` covered. */
  lemma CoversCons(s: Span, rest: seq<Span>, q: nat)
    requires s.start <= q
    requires s.end <= q ==> Covers(rest, q)
    ensures Covers([s] + rest, q)
  {
    var m := [s] + rest;
    if q < s.end {
      assert m[0].start <= q < m[0].end;
    } else {
      var i :| 0 <= i < |rest| && rest[i].start <= q < rest[i].end;
      assert m[i + 1] == rest[i];
    }
  }

  /** A match at `q` makes `exec` from any `from <= q` succeed, at `q` or before. */
  lemma ExecFindsMatch(pat: Pattern, text: string, from: nat, q: nat, e: nat)
    requires from <= |text|
    requires from <= q && IsMatch(pat, text, q, e)
    ensures Exec(pat, text, from).Some? && Exec(pat, text, from).value.start <= q
  {
    ExecCorrect(pat, text, from);
  }

  /** Two matches separated only by non-terminators join into one match
      from the first opening to the second closing. */
  lemma JoinMatches(pat: Pattern, text: string, p1: nat, e1: nat, p2: nat, e2: nat)
    requires IsMatch(pat, text, p1, e1) && IsMatch(pat, text, p2, e2)
    requires e1 <= p2
    requires NoTerminator(text, e1, p2)
    ensures IsMatch(pat, text, p1, e2)
  {
    MatchHasNoTerminator(pat, text, p1, e1);
    MatchHasNoTerminator(pat, text, p2, e2);
    forall j | p1 + OpeningLength(pat) <= j < e2 - ClosingLength(pat)
      ensures !IsLineTerminator(text[j])
    {
      if j < e1 {
      } else if j < p2 {
      } else {
      }
    }
  }

  /** Between two consecutive spans of the scan lies a line terminator:
      otherwise the first, greedy match would have run on to the second's
      closing. */
  lemma TerminatorBetweenMatches(pat: Pattern, text: string, from: nat, i: nat)
    requires from <= |text|
    requires i + 1 < |Matches(pat, text, from)|
    ensures var m := Matches(pat, text, from);
            exists t :: m[i].end <= t < m[i + 1].start && t < |text| && IsLineTerminator(text[t])
  {
    ScanSpanIsLongest(pat, text, from, i);
    ScanSpan(pat, text, from, i);
    ScanSpan(pat, text, from, i + 1);
    var m := Matches(pat, text, from);
    var p1, e1, p2, e2 := m[i].start, m[i].end, m[i + 1].start, m[i + 1].end;
    if NoTerminator(text, e1, p2) {
      JoinMatches(pat, text, p1, e1, p2, e2);
      assert false;
    }
  }

  // ---------------------------------------------------------------------
  // Matches that run to the end of their line

  /** A match that reaches a line terminator, or the end of the text, is the
      one the greedy search returns. */
  lemma MatchToLineEnd(pat: Pattern, text: string, p: nat, e: nat)
    requires IsMatch(pat, text, p, e)
    requires e == |text| || IsLineTerminator(text[e])
    ensures MatchEnd(pat, text, p) == Some(e)
  {
    MatchEndCorrect(pat, text, p);
    var v := MatchEnd(pat, text, p).value;
    MatchHasNoTerminator(pat, text, p, v);
    assert v <= e;
  }

  /** No `"` on the last line of `pre`: from its last line terminator on. */
  predicate QuoteFreeLastLine(pre: string) {
    forall k :: 0 <= k < |pre| && NoTerminator(pre, k, |pre|) ==> pre[k] != '"'
  }

  /** No `"` on the first line of `post`: up to its first line terminator. */
  predicate QuoteFreeFirstLine(post: string) {
    forall k :: 0 <= k < |post| && NoTerminator(post, 0, k) ==> post[k] != '"'
  }

  /** A quoted attribute followed by no further `"` on its line is the
      longest match at its start. */
  lemma AttributeIsLongestMatch(pre: string, value: string, post: string)
    requires NoTerminator(value, 0, |value|)
    requires QuoteFreeFirstLine(post)
    ensures var text := pre + QuotedOpening + value + "\"" + post;
            IsLongestMatch(QuotedValue, text, |pre|, |pre| + 12 + |value|)
  {
    var text := pre + QuotedOpening + value + "\"" + post;
    var p, e := |pre|, |pre| + 12 + |value|;
    assert text[p..p + 11] == QuotedOpening;
    assert text[e - 1] == '"';
    forall k | p + 11 <= k < e - 1
      ensures !IsLineTerminator(text[k])
    {
      assert text[k] == value[k - p - 11];
    }
    assert IsMatch(QuotedValue, text, p, e);
    forall e': nat | IsMatch(QuotedValue, text, p, e')
      ensures e' <= e
    {
      if e' > e {
        var k := e' - 1 - e;
        assert text[e' - 1] == post[k];
        forall j | 0 <= j < k
          ensures !IsLineTerminator(post[j])
        {
          assert post[j] == text[e + j];
        }
        assert false;
      }
    }
  }

  /** No match that starts before the attribute reaches into it, when the
      attribute's line holds no `"` before it. */
  lemma MatchStartsAtAttribute(pre: string, value: string, post: string, s: nat, f: nat)
    requires QuoteFreeLastLine(pre)
    requires IsMatch(QuotedValue, pre + QuotedOpening + value + "\"" + post, s, f)
    requires s <= |pre| < f
    ensures s == |pre|
  {
    var text := pre + QuotedOpening + value + "\"" + post;
    if s < |pre| {
      MatchHasNoTerminator(QuotedValue, text, s, f);
      assert text[s + 10] == text[s..s + 11][10];
      if s + 10 < |pre| {
        forall j | s + 10 <= j < |pre|
          ensures !IsLineTerminator(pre[j])
        {
          assert pre[j] == text[j];
        }
      }
      assert false;
    }
  }

  /** A quoted attribute anywhere in a document, with no other `"` on its
      line, is found whole by the scan: `.*` takes any characters, quotes
      included, up to the attribute's closing quote. */
  lemma AttributeFoundWhole(pre: string, value: string, post: string)
    requires NoTerminator(value, 0, |value|)
    requires QuoteFreeLastLine(pre) && QuoteFreeFirstLine(post)
    ensures var text := pre + QuotedOpening + value + "\"" + post;
            Span(|pre|, |pre| + 12 + |value|) in Matches(QuotedValue, text, 0)
  {
    var text := pre + QuotedOpening + value + "\"" + post;
    var p, e := |pre|, |pre| + 12 + |value|;
    AttributeIsLongestMatch(pre, value, post);
    MatchesComplete(QuotedValue, text, 0, p, e);
    var m := Matches(QuotedValue, text, 0);
    var i :| 0 <= i < |m| && m[i].start <= p < m[i].end;
    ScanSpanIsLongest(QuotedValue, text, 0, i);
    MatchStartsAtAttribute(pre, value, post, m[i].start, m[i].end);
    assert m[i] == Span(p, e);
  }

  /** A text consisting of one quoted attribute is found whole, and is the
      only match. */
  lemma {:induction false} QuotedAttributeMatchesWhole(value: string)
    requires NoTerminator(value, 0, |value|)
    ensures var text := QuotedOpening + value + "\"";
            Matches(QuotedValue, text, 0) == [Span(0, |text|)]
  {
    var text := QuotedOpening + value + "\"";
    assert text[0..11] == QuotedOpening;
    assert NoTerminator(text, 11, |text| - 1) by {
      forall k | 11 <= k < |text| - 1
        ensures !IsLineTerminator(text[k])
      {
        assert text[k] == value[k - 11];
      }
    }
    assert IsMatch(QuotedValue, text, 0, |text|);
    MatchToLineEnd(QuotedValue, text, 0, |text|);
    assert Matches(QuotedValue, text, |text|) == [];
  }

  /** The braced pattern takes any of the three quote characters before and
      after its value, and the two need not be the same. */
  lemma {:induction false} BracedQuotesIndependent(open: char, value: string, close: char)
    requires IsQuote(open) && IsQuote(close)
    requires |value| >= 1 && NoTerminator(value, 0, |value|)
    ensures var text := BracedOpening + [open] + value + [close] + "}";
            Matches(BracedValue, text, 0) == [Span(0, |text|)]
  {
    var text := BracedOpening + [open] + value + [close] + "}";
    assert text[0..11] == BracedOpening;
    assert text[11] == open;
    assert text[|text| - 2] == close;
    assert NoTerminator(text, 12, |text| - 2) by {
      forall k | 12 <= k < |text| - 2
        ensures !IsLineTerminator(text[k])
      {
        assert text[k] == value[k - 12];
      }
    }
    assert IsMatch(BracedValue, text, 0, |text|);
    MatchToLineEnd(BracedValue, text, 0, |text|);
    assert Matches(BracedValue, text, |text|) == [];
  }
}
