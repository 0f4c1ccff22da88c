/**
 * Texts whose offsets can be mapped to source lines and back, and the space over plain
 * source text (live/src/lib/comment-anchor.ts, `TextSpace` and `sourceTextSpace`).
 */
module TextSpaces {
  import opened Wrappers
  import opened Text

  /** [start, end) offsets of lines a..b, counting from 1; `None` if they cannot be mapped. */
  type LinesToOffsets = (int, int) -> Option<(int, int)>

  /** The line an offset is on; `None` if it is not known. */
  type OffsetToLine = int -> Option<int>

  /** A viewer's text. The mappings are absent when it has no source lines. */
  datatype TextSpace = TextSpace(text: string, toOffsets: Option<LinesToOffsets>, toLine: Option<OffsetToLine>)

  // --- Lines of a text ----------------------------------------------------------

  function Newlines(s: string): nat {
    if s == "" then 0 else (if s[0] == '\n' then 1 else 0) + Newlines(s[1..])
  }

  lemma {:induction false} NewlinesConcat(s: string, t: string)
    ensures Newlines(s + t) == Newlines(s) + Newlines(t)
  {
    if s == "" {
      assert s + t == t;
    } else {
      assert (s + t)[1..] == s[1..] + t;
      NewlinesConcat(s[1..], t);
    }
  }

  /** The line of an offset: one more than the newlines before it. */
  function LineOf(text: string, offset: int): nat {
    1 + Newlines(text[..Max(0, Min(offset, |text|))])
  }

  function LineCount(text: string): nat {
    1 + Newlines(text)
  }

  lemma LineOfNext(text: string, k: nat)
    requires k < |text|
    ensures LineOf(text, k + 1) == LineOf(text, k) + (if text[k] == '\n' then 1 else 0)
  {
    NewlinesConcat(text[..k], [text[k]]);
    assert text[..k + 1] == text[..k] + [text[k]];
    assert Newlines([text[k]]) == if text[k] == '\n' then 1 else 0;
  }

  lemma {:induction false} LineOfMonotone(text: string, j: int, k: int)
    requires j <= k
    ensures 1 <= LineOf(text, j) <= LineOf(text, k) <= LineCount(text)
  {
    var a, b := Max(0, Min(j, |text|)), Max(0, Min(k, |text|));
    NewlinesConcat(text[..a], text[a..b]);
    assert text[..b] == text[..a] + text[a..b];
    NewlinesConcat(text[..b], text[b..]);
    assert text == text[..b] + text[b..];
  }

  /** Where the lines of the first `n` characters start. */
  function StartsUpTo(text: string, n: nat): (starts: seq<nat>)
    requires n <= |text|
    ensures |starts| >= 1
  {
    if n == 0 then [0]
    else StartsUpTo(text, n - 1) + if text[n - 1] == '\n' then [n] else []
  }

  function LineStarts(text: string): seq<nat> {
    StartsUpTo(text, |text|)
  }

  method FindLineStarts(text: string) returns (starts: seq<nat>)
    ensures starts == LineStarts(text)
  {
    starts := [0];
    for i := 0 to |text|
      invariant starts == StartsUpTo(text, i)
    {
      if text[i] == '\n' {
        starts := starts + [i + 1];
      }
    }
  }

  /** `start` is the first offset of line `i + 1`. */
  predicate IsStart(text: string, start: nat, i: nat) {
    && start <= |text|
    && LineOf(text, start) == i + 1
    && (if i == 0 then start == 0 else start > 0 && text[start - 1] == '\n')
  }

  lemma {:induction false} StartsMeaning(text: string, n: nat)
    requires n <= |text|
    ensures |StartsUpTo(text, n)| == LineOf(text, n)
    ensures forall i | 0 <= i < |StartsUpTo(text, n)| :: IsStart(text, StartsUpTo(text, n)[i], i)
  {
    if n > 0 {
      StartsMeaning(text, n - 1);
      LineOfNext(text, n - 1);
    }
  }

  lemma {:induction false} StartCount(text: string)
    ensures |LineStarts(text)| == LineCount(text) == LineOf(text, |text|)
  {
    StartsMeaning(text, |text|);
    assert text[..|text|] == text;
  }

  /** A line start is at or before an offset exactly when its line is. */
  lemma StartBefore(text: string, i: nat, offset: nat)
    requires i < |LineStarts(text)|
    ensures LineStarts(text)[i] <= offset <==> i + 1 <= LineOf(text, offset)
  {
    StartsMeaning(text, |text|);
    var start := LineStarts(text)[i];
    if start <= offset {
      LineOfMonotone(text, start, offset);
    } else {
      LineOfNext(text, start - 1);
      LineOfMonotone(text, offset, start - 1);
    }
  }

  /** The binary search for a line counts the newlines before the offset. */
  method OffsetToLineSearch(text: string, starts: seq<nat>, offset: int) returns (line: int)
    requires starts == LineStarts(text)
    ensures line == LineOf(text, offset)
  {
    StartsMeaning(text, |text|);
    LineOfMonotone(text, offset, Max(offset, |text|));
    StartCount(text);
    var lo, hi := 0, |starts| - 1;
    while lo < hi
      invariant 0 <= lo <= hi < |starts|
      invariant lo + 1 <= LineOf(text, offset) <= hi + 1
    {
      var mid := (lo + hi + 1) / 2;
      if offset >= 0 {
        StartBefore(text, mid, offset);
      }
      if starts[mid] <= offset {
        lo := mid;
      } else {
        hi := mid - 1;
      }
    }
    line := lo + 1;
  }

  // --- Line ranges ----------------------------------------------------------------

  function RangeOf(text: string, a: int, b: int): (r: Option<(int, int)>)
  {
    var starts := LineStarts(text);
    if a > |starts| then None
    else
      var s := Max(1, a);
      var e := Min(|starts|, Max(s, b));
      Some((starts[s - 1], if e < |starts| then starts[e] - 1 else |text|))
  }

  /** A line range maps to exactly the offsets on its lines, the newline that ends the last one included. */
  lemma RangeMeaning(text: string, a: int, b: int, k: nat)
    requires k <= |text|
    ensures RangeOf(text, a, b).None? <==> a > LineCount(text)
    ensures RangeOf(text, a, b).Some? ==>
              var (s, e) := RangeOf(text, a, b).value;
              s <= k <= e <==> Max(1, a) <= LineOf(text, k) <= Max(Max(1, a), b)
  {
    StartCount(text);
    if a <= LineCount(text) {
      var first := Max(1, a);
      var last := Min(LineCount(text), Max(first, b));
      StartBefore(text, first - 1, k);
      LineOfMonotone(text, k, |text|);
      if last < LineCount(text) {
        StartBefore(text, last, k);
      }
    }
  }

  /** The ends of a mapped line range map back to its first and last line. */
  lemma RangeRoundTrip(text: string, a: int, b: int)
    requires a <= LineCount(text)
    ensures RangeOf(text, a, b).Some?
    ensures var (s, e) := RangeOf(text, a, b).value;
            && 0 <= s <= e <= |text|
            && LineOf(text, s) == Max(1, a)
            && LineOf(text, e) == Min(LineCount(text), Max(Max(1, a), b))
  {
    StartCount(text);
    StartsMeaning(text, |text|);
    var starts, first := LineStarts(text), Max(1, a);
    var last := Min(LineCount(text), Max(first, b));
    var (s, e) := RangeOf(text, a, b).value;
    if last < LineCount(text) {
      StartBefore(text, last, e);
      LineOfNext(text, e);
    }
    StartBefore(text, first - 1, e);
  }

  /** The space over plain source text. */
  function SourceSpace(text: string): TextSpace {
    TextSpace(text,
              Some((a: int, b: int) => RangeOf(text, a, b)),
              Some((offset: int) => Some(LineOf(text, offset))))
  }
}
