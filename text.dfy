/** The text of a document: the line terminators a JavaScript regular
    expression stops at, and the editor's line numbering of offsets. */
module Text {

  /** The characters JavaScript's `.` does not match without the `s` flag. */
  predicate IsLineTerminator(c: char) {
    c == '\n' || c == '\r' || c == '\U{2028}' || c == '\U{2029}'
  }

  /** No line terminator occurs in text[lo..hi]. */
  predicate NoTerminator(text: string, lo: nat, hi: nat)
    requires lo <= hi <= |text|
  {
    forall k :: lo <= k < hi ==> !IsLineTerminator(text[k])
  }

  /** The two terminators a JavaScript regular expression stops at but the
      editor does not start a new line at. */
  predicate NoSeparators(text: string) {
    forall k :: 0 <= k < |text| ==> text[k] != '\U{2028}' && text[k] != '\U{2029}'
  }

  /** Where the line holding offset `i` ends for a regular expression:
      the first line terminator at or after `i`, or the end of the text. */
  function LineEnd(text: string, i: nat): (r: nat)
    requires i <= |text|
    ensures i <= r <= |text|
    ensures NoTerminator(text, i, r)
    ensures r < |text| ==> IsLineTerminator(text[r])
    decreases |text| - i
  {
    if i == |text| || IsLineTerminator(text[i]) then i else LineEnd(text, i + 1)
  }

  /** Offset `i` ends a line in the editor's numbering: "\n", "\r\n" and "\r"
      are the line breaks, and "\r\n" counts once, at its "\n". */
  predicate IsBreakAt(text: string, i: nat)
    requires i < |text|
  {
    text[i] == '\n' || (text[i] == '\r' && (i + 1 == |text| || text[i + 1] != '\n'))
  }

  /** The zero-based line of `offset`: the number of line breaks before it.
      This stands for the editor's `positionAt(offset).line`. */
  function LineOf(text: string, offset: nat): (line: nat)
    requires offset <= |text|
    ensures line <= offset
  {
    if offset == 0 then 0
    else LineOf(text, offset - 1) + (if IsBreakAt(text, offset - 1) then 1 else 0)
  }

  /** `positionAt` clamps an offset past the end of the text to its end. */
  function PositionLine(text: string, offset: nat): nat {
    LineOf(text, if offset <= |text| then offset else |text|)
  }

  /** The number of line breaks in the text: the index of its last line. */
  function LineCount(text: string): nat {
    LineOf(text, |text|)
  }

  lemma {:induction false} LineOfMonotone(text: string, a: nat, b: nat)
    requires a <= b <= |text|
    ensures LineOf(text, a) <= LineOf(text, b)
    decreases b - a
  {
    if a < b {
      LineOfMonotone(text, a, b - 1);
    }
  }

  /** Every offset lies on a line between 0 and the last one. */
  lemma PositionLineBounded(text: string, offset: nat)
    ensures PositionLine(text, offset) <= LineCount(text)
  {
    LineOfMonotone(text, if offset <= |text| then offset else |text|, |text|);
  }

  /** A stretch without line terminators lies on a single line. */
  lemma {:induction false} LineOfFlat(text: string, a: nat, b: nat)
    requires a <= b <= |text|
    requires NoTerminator(text, a, b)
    ensures LineOf(text, a) == LineOf(text, b)
    decreases b - a
  {
    if a < b {
      LineOfFlat(text, a, b - 1);
      assert !IsLineTerminator(text[b - 1]);
    }
  }

  /** A line break strictly between two offsets puts them on different lines. */
  lemma LineOfCrossesBreak(text: string, a: nat, t: nat, b: nat)
    requires a <= t < b <= |text|
    requires IsBreakAt(text, t)
    ensures LineOf(text, a) < LineOf(text, b)
  {
    LineOfMonotone(text, a, t);
    LineOfMonotone(text, t + 1, b);
  }

  /** Without U+2028 and U+2029, every line terminator before `b` starts a new
      editor line by `b`, unless `b` splits a "\r\n". */
  lemma TerminatorStartsLine(text: string, t: nat, b: nat)
    requires NoSeparators(text)
    requires t < b <= |text|
    requires IsLineTerminator(text[t])
    requires !(b == t + 1 && text[t] == '\r' && b < |text| && text[b] == '\n')
    ensures LineOf(text, t) < LineOf(text, b)
  {
    if IsBreakAt(text, t) {
      LineOfCrossesBreak(text, t, t, b);
    } else {
      assert text[t] == '\r' && text[t + 1] == '\n';
      assert IsBreakAt(text, t + 1);
      LineOfCrossesBreak(text, t, t + 1, b);
    }
  }
}
