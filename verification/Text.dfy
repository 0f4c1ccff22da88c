/**
 * The JavaScript string operations the modelled code is written in. A string is a
 * sequence of characters; surrogate pairs are not distinguished.
 */
module Text {
  import opened Wrappers

  /** The characters matched by `\s` in a regular expression (and removed by `trim`). */
  predicate IsSpace(c: char) {
    || '\U{0009}' <= c <= '\U{000d}'
    || c == ' ' || c == '\U{00a0}' || c == '\U{1680}'
    || '\U{2000}' <= c <= '\U{200a}'
    || c == '\U{2028}' || c == '\U{2029}' || c == '\U{202f}' || c == '\U{205f}' || c == '\U{3000}' || c == '\U{feff}'
  }

  predicate AllBlank(s: string) {
    forall i | 0 <= i < |s| :: IsSpace(s[i])
  }

  function Min(a: int, b: int): int {
    if a < b then a else b
  }

  function Max(a: int, b: int): int {
    if a < b then b else a
  }

  /** One argument of `slice`: negative positions count from the end, all are clamped. */
  function SliceIndex(length: nat, i: int): nat {
    if i < 0 then Max(0, length + i) else Min(i, length)
  }

  /** `s.slice(a, b)`. */
  function Slice(s: string, a: int, b: int): string {
    var lo, hi := SliceIndex(|s|, a), SliceIndex(|s|, b);
    if lo < hi then s[lo..hi] else ""
  }

  lemma SliceClamped(s: string, i: nat, j: nat)
    requires i <= j && i <= |s|
    ensures Slice(s, i, j) == s[i..Min(|s|, j)]
  {
  }

  function TrimStart(s: string): string {
    if s != "" && IsSpace(s[0]) then TrimStart(s[1..]) else s
  }

  function TrimEnd(s: string): string {
    if s != "" && IsSpace(s[|s| - 1]) then TrimEnd(s[..|s| - 1]) else s
  }

  /** `s.trim()`. */
  function Trim(s: string): string {
    TrimEnd(TrimStart(s))
  }

  /** Trimming leaves nothing exactly when there is nothing but blanks. */
  lemma {:induction false} TrimEmpty(s: string)
    ensures Trim(s) == "" <==> AllBlank(s)
  {
    TrimStartEmpty(s);
    TrimEndEmpty(TrimStart(s));
  }

  lemma {:induction false} TrimStartEmpty(s: string)
    ensures AllBlank(TrimStart(s)) <==> AllBlank(s)
    decreases |s|
  {
    if s != "" && IsSpace(s[0]) {
      TrimStartEmpty(s[1..]);
      assert s == [s[0]] + s[1..];
    }
  }

  lemma {:induction false} TrimEndEmpty(s: string)
    ensures TrimEnd(s) == "" <==> AllBlank(s)
    decreases |s|
  {
    if s != "" && IsSpace(s[|s| - 1]) {
      TrimEndEmpty(s[..|s| - 1]);
      assert s == s[..|s| - 1] + [s[|s| - 1]];
    }
  }

  /** `t` occurs in `s` at `i`. */
  predicate MatchesAt(s: string, t: string, i: int) {
    0 <= i <= |s| - |t| && s[i..i + |t|] == t
  }

  /** Two texts in a row are written where the first and, after it, the second is. */
  lemma MatchesParts(s: string, x: string, y: string, i: nat)
    ensures MatchesAt(s, x + y, i) <==> MatchesAt(s, x, i) && MatchesAt(s, y, i + |x|)
  {
    if i + |x| + |y| <= |s| {
      SliceJoin(s, i, i + |x|, i + |x| + |y|);
      if MatchesAt(s, x + y, i) {
        assert (x + y)[..|x|] == x && (x + y)[|x|..] == y;
      }
    }
  }

  /** Within a text that is written at `p`, it depends on that text alone what is written where. */
  lemma MatchesInside(s: string, r: string, p: nat, t: string, x: nat)
    requires MatchesAt(s, r, p) && x + |t| <= |r|
    ensures MatchesAt(s, t, p + x) <==> MatchesAt(r, t, x)
  {
    SliceOfSlice(s, p, p + |r|, x, x + |t|);
  }

  lemma MatchedChar(s: string, t: string, i: nat, k: nat)
    requires MatchesAt(s, t, i) && k < |t|
    ensures s[i + k] == t[k]
  {
    assert s[i..i + |t|][k] == s[i + k];
  }

  /** `s.indexOf(t, from)`: the first occurrence at or after `from`, or -1. */
  function IndexOf(s: string, t: string, from: nat): (r: int)
    ensures r == -1 || (from <= r && MatchesAt(s, t, r))
    ensures forall i | from <= i && MatchesAt(s, t, i) :: r != -1 && r <= i
    decreases |s| - from
  {
    if from + |t| > |s| then -1
    else if s[from..from + |t|] == t then from
    else IndexOf(s, t, from + 1)
  }

  /** The only position with the properties of the first occurrence is the one found. */
  lemma IndexOfIs(s: string, t: string, from: nat, r: nat)
    requires from <= r && MatchesAt(s, t, r)
    requires forall i | from <= i < r :: !MatchesAt(s, t, i)
    ensures IndexOf(s, t, from) == r
  {
  }

  lemma IndexOfNone(s: string, t: string, from: nat)
    requires forall i | from <= i :: !MatchesAt(s, t, i)
    ensures IndexOf(s, t, from) == -1
  {
  }

  lemma MatchesChar(s: string, c: char, i: int)
    ensures MatchesAt(s, [c], i) <==> 0 <= i < |s| && s[i] == c
  {
    if 0 <= i < |s| {
      assert s[i..i + 1] == [s[i]];
    }
  }

  lemma MatchesPair(s: string, c: char, d: char, i: int)
    ensures MatchesAt(s, [c, d], i) <==> 0 <= i < |s| - 1 && s[i] == c && s[i + 1] == d
  {
    if 0 <= i < |s| - 1 {
      assert s[i..i + 2] == [s[i], s[i + 1]];
    }
  }

  /** The first occurrence of one character splits a string where it is written. */
  lemma IndexOfChar(l: string, c: char, rest: string)
    requires c !in l
    ensures IndexOf(l + [c] + rest, [c], 0) == |l|
  {
    var s := l + [c] + rest;
    forall i | 0 <= i < |l| ensures !MatchesAt(s, [c], i) {
      MatchesChar(s, c, i);
      assert s[i] == l[i] && l[i] in l;
    }
    MatchesChar(s, c, |l|);
    IndexOfIs(s, [c], 0, |l|);
  }

  lemma NoIndexOfChar(l: string, c: char)
    requires c !in l
    ensures IndexOf(l, [c], 0) == -1
  {
    forall i | 0 <= i ensures !MatchesAt(l, [c], i) {
      MatchesChar(l, c, i);
    }
    IndexOfNone(l, [c], 0);
  }

  /** Every position where `t` occurs in `s` at or after `from`, overlapping ones included. */
  function Occurrences(s: string, t: string, from: nat): (r: seq<nat>)
    ensures forall i :: i in r <==> from <= i && MatchesAt(s, t, i)
    decreases |s| - from
  {
    if from + |t| > |s| then []
    else if MatchesAt(s, t, from) then [from] + Occurrences(s, t, from + 1)
    else Occurrences(s, t, from + 1)
  }

  lemma {:induction false} OccurrencesIncrease(s: string, t: string, from: nat)
    ensures forall j, k | 0 <= j < k < |Occurrences(s, t, from)| ::
              Occurrences(s, t, from)[j] < Occurrences(s, t, from)[k]
    decreases |s| - from
  {
    if from + |t| <= |s| {
      OccurrencesIncrease(s, t, from + 1);
      var r, rest := Occurrences(s, t, from), Occurrences(s, t, from + 1);
      forall j, k | 0 <= j < k < |r| ensures r[j] < r[k] {
        if r != rest && j == 0 {
          assert r[k] == rest[k - 1] && rest[k - 1] in rest;
        } else if r != rest {
          assert r[j] == rest[j - 1] && r[k] == rest[k - 1];
        }
      }
    }
  }

  /** The search can start at any point before the first occurrence. */
  lemma {:induction false} OccurrencesSkip(s: string, t: string, from: nat, to: nat)
    requires forall i | from <= i < to :: !MatchesAt(s, t, i)
    ensures from <= to ==> Occurrences(s, t, from) == Occurrences(s, t, to)
    decreases if from < to then to - from else 0
  {
    if from < to {
      OccurrencesSkip(s, t, from + 1, to);
      if from + |t| > |s| {
        assert Occurrences(s, t, to) == [];
      }
    }
  }
}
