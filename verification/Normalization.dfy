/**
 * Normalised text with an index map back to the original
 * (live/src/lib/comment-anchor.ts, "Normalization").
 */
module Normalization {
  import opened Wrappers
  import opened Text

  datatype Mode = Strict | Loose

  /** What the code asks of Unicode: lower-casing one character, and "letter or digit". */
  datatype Alphabet = Alphabet(lower: char -> string, alnum: char -> bool)

  /** `origin[k]` is the index in the original text of the character that gave `norm[k]`. */
  datatype Normalized = Normalized(norm: string, origin: seq<nat>)

  /** Blanks and markdown syntax, dropped by the loose mode. */
  predicate LooseDrop(c: char) {
    IsSpace(c) || c in "*_`~#>|\\[]"
  }

  /** The characters that the one at `i` contributes to the normalised text. */
  function Emit(abc: Alphabet, text: string, mode: Mode, i: nat): string
    requires i < |text|
  {
    match mode
    case Strict =>
      if !IsSpace(text[i]) then [text[i]]
      else if i > 0 && IsSpace(text[i - 1]) then ""
      else " "
    case Loose =>
      if LooseDrop(text[i]) then "" else abc.lower(text[i])
  }

  function Repeat(i: nat, n: nat): seq<nat> {
    seq(n, _ => i)
  }

  /** The normal form of the first `n` characters. */
  function NormalizeUpTo(abc: Alphabet, text: string, mode: Mode, n: nat): (r: Normalized)
    requires n <= |text|
    ensures |r.norm| == |r.origin|
    ensures forall k | 0 <= k < |r.origin| :: r.origin[k] < n
  {
    if n == 0 then Normalized("", [])
    else
      var before, e := NormalizeUpTo(abc, text, mode, n - 1), Emit(abc, text, mode, n - 1);
      Normalized(before.norm + e, before.origin + Repeat(n - 1, |e|))
  }

  function Normalize(abc: Alphabet, text: string, mode: Mode): (r: Normalized)
    ensures |r.norm| == |r.origin|
    ensures forall k | 0 <= k < |r.origin| :: r.origin[k] < |text|
  {
    NormalizeUpTo(abc, text, mode, |text|)
  }

  /** The loop of the code, which carries "inside a run of blanks" from one turn to the next. */
  method NormalizeText(abc: Alphabet, text: string, mode: Mode) returns (r: Normalized)
    ensures r == Normalize(abc, text, mode)
  {
    var norm, origin: seq<nat>, inSpace := "", [], false;
    for i := 0 to |text|
      invariant Normalized(norm, origin) == NormalizeUpTo(abc, text, mode, i)
      invariant mode.Strict? ==> inSpace == (i > 0 && IsSpace(text[i - 1]))
    {
      var ch := text[i];
      if mode.Strict? {
        if IsSpace(ch) {
          if !inSpace {
            norm, origin := norm + " ", origin + [i];
            assert Repeat(i, 1) == [i];
          } else {
            assert norm + "" == norm && origin + Repeat(i, 0) == origin;
          }
          inSpace := true;
          continue;
        }
        inSpace := false;
        norm, origin := norm + [ch], origin + [i];
        assert Repeat(i, 1) == [i];
      } else {
        if LooseDrop(ch) {
          assert norm + "" == norm && origin + Repeat(i, 0) == origin;
          continue;
        }
        norm, origin := PushAll(norm, origin, abc.lower(ch), i);
      }
    }
    return Normalized(norm, origin);
  }

  /** The inner loop: every character of a lower case comes from the same place. */
  method PushAll(norm: string, origin: seq<nat>, lower: string, i: nat) returns (norm': string, origin': seq<nat>)
    ensures norm' == norm + lower && origin' == origin + Repeat(i, |lower|)
  {
    norm', origin' := norm, origin;
    for k := 0 to |lower|
      invariant norm' == norm + lower[..k] && origin' == origin + Repeat(i, k)
    {
      norm', origin' := norm' + [lower[k]], origin' + [i];
      assert lower[..k + 1] == lower[..k] + [lower[k]];
      assert Repeat(i, k + 1) == Repeat(i, k) + [i];
    }
    assert lower[..|lower|] == lower;
  }

  /** What each character gives: in the strict mode runs of blanks give one; the loose mode leaves out blanks and ten signs. */
  lemma EmitMeaning(abc: Alphabet, text: string, i: nat)
    requires i < |text|
    ensures var sign := text[i] in ['*', '_', '`', '~', '#', '>', '|', '\\', '[', ']'];
            Emit(abc, text, Loose, i) == if IsSpace(text[i]) || sign then "" else abc.lower(text[i])
    ensures !IsSpace(text[i]) ==> Emit(abc, text, Strict, i) == [text[i]]
    ensures IsSpace(text[i]) ==> Emit(abc, text, Strict, i) == if i == 0 || !IsSpace(text[i - 1]) then [' '] else ""
  {
  }

  /** A search text: normalised, and trimmed in the strict mode. */
  function NormalizeNeedle(abc: Alphabet, text: string, mode: Mode): string {
    var n := Normalize(abc, text, mode).norm;
    if mode.Strict? then Trim(n) else n
  }

  // --- The index map ----------------------------------------------------------

  /** How many normalised characters the first `n` characters gave. */
  function Width(abc: Alphabet, text: string, mode: Mode, n: nat): nat
    requires n <= |text|
  {
    |NormalizeUpTo(abc, text, mode, n).norm|
  }

  lemma {:induction false} UpToPrefix(abc: Alphabet, text: string, mode: Mode, m: nat, n: nat)
    requires m <= n <= |text|
    ensures NormalizeUpTo(abc, text, mode, m).norm <= NormalizeUpTo(abc, text, mode, n).norm
    ensures NormalizeUpTo(abc, text, mode, m).origin <= NormalizeUpTo(abc, text, mode, n).origin
    decreases n
  {
    if m < n {
      UpToPrefix(abc, text, mode, m, n - 1);
    }
  }

  /** Positions and original indices agree: `k` came from `i` exactly when it lies in the stretch `i` gave. */
  lemma {:induction false} OriginStretch(abc: Alphabet, text: string, mode: Mode, i: nat, k: nat)
    requires i < |text| && k < Width(abc, text, mode, |text|)
    ensures Width(abc, text, mode, i) <= Width(abc, text, mode, i + 1) <= Width(abc, text, mode, |text|)
    ensures Normalize(abc, text, mode).origin[k] == i
            <==> Width(abc, text, mode, i) <= k < Width(abc, text, mode, i + 1)
    ensures Normalize(abc, text, mode).origin[k] < i <==> k < Width(abc, text, mode, i)
  {
    UpToPrefix(abc, text, mode, i, |text|);
    UpToPrefix(abc, text, mode, i + 1, |text|);
    OriginAtLeast(abc, text, mode, i, |text|, k);
    OriginAtLeast(abc, text, mode, i + 1, |text|, k);
  }

  lemma {:induction false} OriginAtLeast(abc: Alphabet, text: string, mode: Mode, i: nat, n: nat, k: nat)
    requires i <= n <= |text| && k < Width(abc, text, mode, n)
    ensures NormalizeUpTo(abc, text, mode, n).origin[k] < i <==> k < Width(abc, text, mode, i)
    decreases n
  {
    if i == n {
    } else if k < Width(abc, text, mode, n - 1) {
      OriginAtLeast(abc, text, mode, i, n - 1, k);
    } else {
      UpToPrefix(abc, text, mode, i, n - 1);
    }
  }

  lemma {:induction false} OriginNonDecreasing(abc: Alphabet, text: string, mode: Mode, j: nat, k: nat)
    requires j <= k < Width(abc, text, mode, |text|)
    ensures Normalize(abc, text, mode).origin[j] <= Normalize(abc, text, mode).origin[k]
  {
    var i := Normalize(abc, text, mode).origin[j];
    OriginStretch(abc, text, mode, i, j);
    OriginStretch(abc, text, mode, i, k);
  }

  // --- Slices of the original -------------------------------------------------

  /** A cut at `a` does not split a run of blanks. */
  predicate StartsAfresh(text: string, mode: Mode, a: nat) {
    mode.Strict? && 0 < a < |text| ==> !(IsSpace(text[a]) && IsSpace(text[a - 1]))
  }

  /** Normalising the slice [a, b) gives the stretch of the normal form that [a, b) gave. */
  lemma NormalizeSlice(abc: Alphabet, text: string, mode: Mode, a: nat, b: nat)
    requires a <= b <= |text| && StartsAfresh(text, mode, a)
    ensures Width(abc, text, mode, a) <= Width(abc, text, mode, b) <= Width(abc, text, mode, |text|)
    ensures Normalize(abc, text[a..b], mode).norm
            == Normalize(abc, text, mode).norm[Width(abc, text, mode, a)..Width(abc, text, mode, b)]
  {
    SliceEmits(abc, text, mode, a, b);
    UpToPrefix(abc, text, mode, b, |text|);
    SliceGives(abc, text, text[a..b], mode, a, b, NormalizeUpTo(abc, text, mode, a).norm);
  }

  lemma SliceGives(abc: Alphabet, text: string, slice: string, mode: Mode, a: nat, b: nat, first: string)
    requires a + |slice| == b <= |text| && SameEmits(abc, text, slice, mode, a) && first == NormalizeUpTo(abc, text, mode, a).norm
    requires NormalizeUpTo(abc, text, mode, b).norm <= Normalize(abc, text, mode).norm
    ensures |first| <= |NormalizeUpTo(abc, text, mode, b).norm|
    ensures Normalize(abc, text, mode).norm[|first|..|NormalizeUpTo(abc, text, mode, b).norm|] == Normalize(abc, slice, mode).norm
  {
    SliceUpTo(abc, text, slice, mode, a, |slice|, b, first);
    MiddleOf(Normalize(abc, text, mode).norm, NormalizeUpTo(abc, text, mode, b).norm, first, Normalize(abc, slice, mode).norm);
  }

  lemma MiddleOf(whole: string, upTo: string, first: string, middle: string)
    requires upTo <= whole && upTo == first + middle
    ensures whole[|first|..|upTo|] == middle
  {
    assert whole[..|upTo|] == upTo;
  }

  predicate SameEmits(abc: Alphabet, text: string, slice: string, mode: Mode, a: nat)
    requires a + |slice| <= |text|
  {
    forall i | 0 <= i < |slice| :: Emit(abc, slice, mode, i) == Emit(abc, text, mode, a + i)
  }

  lemma SliceEmits(abc: Alphabet, text: string, mode: Mode, a: nat, b: nat)
    requires a <= b <= |text| && StartsAfresh(text, mode, a)
    ensures SameEmits(abc, text, text[a..b], mode, a)
  {
    forall i | 0 <= i < b - a ensures Emit(abc, text[a..b], mode, i) == Emit(abc, text, mode, a + i) {
      EmitInSlice(abc, text, mode, a, a + i, b);
    }
  }

  lemma EmitInSlice(abc: Alphabet, text: string, mode: Mode, a: nat, i: nat, b: nat)
    requires a <= i < b <= |text| && StartsAfresh(text, mode, a)
    ensures Emit(abc, text[a..b], mode, i - a) == Emit(abc, text, mode, i)
  {
    var slice := text[a..b];
    assert slice[i - a] == text[i];
    assert i > a ==> slice[i - a - 1] == text[i - 1];
  }

  /** What each character contributes is the same in the slice, so the slice adds just that to what comes before it. */
  lemma {:induction false} SliceUpTo(abc: Alphabet, text: string, slice: string, mode: Mode, a: nat, k: nat, n: nat, first: string)
    requires a + |slice| <= |text| && k <= |slice| && n == a + k
    requires SameEmits(abc, text, slice, mode, a) && first == NormalizeUpTo(abc, text, mode, a).norm
    ensures NormalizeUpTo(abc, text, mode, n).norm == first + NormalizeUpTo(abc, slice, mode, k).norm
    decreases k
  {
    if k == 0 {
      SliceStart(abc, slice, mode, first);
    } else {
      SliceUpTo(abc, text, slice, mode, a, k - 1, n - 1, first);
      SliceStep(abc, text, slice, mode, a, n, k, first);
    }
  }

  lemma SliceStart(abc: Alphabet, slice: string, mode: Mode, first: string)
    ensures first + NormalizeUpTo(abc, slice, mode, 0).norm == first
  {
  }

  lemma SliceStep(abc: Alphabet, text: string, slice: string, mode: Mode, a: nat, n: nat, k: nat, first: string)
    requires a + |slice| <= |text| && 0 < k <= |slice| && n == a + k && SameEmits(abc, text, slice, mode, a)
    requires NormalizeUpTo(abc, text, mode, n - 1).norm == first + NormalizeUpTo(abc, slice, mode, k - 1).norm
    ensures NormalizeUpTo(abc, text, mode, n).norm == first + NormalizeUpTo(abc, slice, mode, k).norm
  {
    assert Emit(abc, slice, mode, k - 1) == Emit(abc, text, mode, a + (k - 1));
    UpToStep(abc, text, mode, n);
    UpToStep(abc, slice, mode, k);
    Regroup(first, NormalizeUpTo(abc, slice, mode, k - 1).norm, Emit(abc, text, mode, n - 1));
  }

  lemma UpToStep(abc: Alphabet, text: string, mode: Mode, n: nat)
    requires 0 < n <= |text|
    ensures NormalizeUpTo(abc, text, mode, n).norm
            == NormalizeUpTo(abc, text, mode, n - 1).norm + Emit(abc, text, mode, n - 1)
  {
  }

  /** The normalised characters [k, k + m) begin and end where original characters begin and end. */
  predicate Aligned(origin: seq<nat>, k: nat, m: nat)
    requires 0 < m && k + m <= |origin|
  {
    && (k > 0 ==> origin[k - 1] != origin[k])
    && (k + m < |origin| ==> origin[k + m - 1] != origin[k + m])
  }

  /**
   * The original slice behind a stretch of normalised text normalises back to exactly that
   * stretch when, and only when, the stretch does not cut through what one character gave.
   */
  lemma {:induction false} SliceNormalizesBack(abc: Alphabet, text: string, mode: Mode, k: nat, m: nat)
    requires 0 < m && k + m <= Width(abc, text, mode, |text|)
    ensures var n := Normalize(abc, text, mode);
            var a, b := n.origin[k], n.origin[k + m - 1] + 1;
            && a < b <= |text|
            && (Normalize(abc, text[a..b], mode).norm == n.norm[k..k + m] <==> Aligned(n.origin, k, m))
  {
    var n := Normalize(abc, text, mode);
    var a, b := n.origin[k], n.origin[k + m - 1] + 1;
    OriginNonDecreasing(abc, text, mode, k, k + m - 1);
    StretchEnds(abc, text, mode, k, m);
    EmittingStartsAfresh(abc, text, mode, k);
    NormalizeSlice(abc, text, mode, a, b);
    var lo, hi := Width(abc, text, mode, a), Width(abc, text, mode, b);
    assert |n.norm[lo..hi]| == hi - lo && |n.norm[k..k + m]| == m;
  }

  lemma StretchStart(abc: Alphabet, text: string, mode: Mode, k: nat)
    requires k < Width(abc, text, mode, |text|)
    ensures var origin := Normalize(abc, text, mode).origin;
            var lo := Width(abc, text, mode, origin[k]);
            && lo <= k
            && (lo == k <==> k > 0 ==> origin[k - 1] != origin[k])
  {
    var i := Normalize(abc, text, mode).origin[k];
    OriginStretch(abc, text, mode, i, k);
    if k > 0 {
      OriginStretch(abc, text, mode, i, k - 1);
    }
  }

  lemma StretchStop(abc: Alphabet, text: string, mode: Mode, k: nat)
    requires k < Width(abc, text, mode, |text|)
    ensures var origin := Normalize(abc, text, mode).origin;
            var hi := Width(abc, text, mode, origin[k] + 1);
            && k < hi
            && (hi == k + 1 <==> k + 1 < |origin| ==> origin[k] != origin[k + 1])
  {
    var origin := Normalize(abc, text, mode).origin;
    OriginStretch(abc, text, mode, origin[k], k);
    if k + 1 < |origin| {
      OriginStretch(abc, text, mode, origin[k], k + 1);
    } else {
      UpToPrefix(abc, text, mode, origin[k] + 1, |text|);
    }
  }

  lemma StretchEnds(abc: Alphabet, text: string, mode: Mode, k: nat, m: nat)
    requires 0 < m && k + m <= Width(abc, text, mode, |text|)
    ensures var origin := Normalize(abc, text, mode).origin;
            var lo, hi := Width(abc, text, mode, origin[k]), Width(abc, text, mode, origin[k + m - 1] + 1);
            && lo <= k && k + m <= hi
            && (Aligned(origin, k, m) <==> lo == k && hi == k + m)
  {
    StretchStart(abc, text, mode, k);
    StretchStop(abc, text, mode, k + m - 1);
  }

  lemma {:induction false} EmittingStartsAfresh(abc: Alphabet, text: string, mode: Mode, k: nat)
    requires k < Width(abc, text, mode, |text|)
    ensures StartsAfresh(text, mode, Normalize(abc, text, mode).origin[k])
  {
    var a := Normalize(abc, text, mode).origin[k];
    OriginStretch(abc, text, mode, a, k);
    assert Emit(abc, text, mode, a) != "";
  }

  predicate OneToOne(abc: Alphabet, text: string) {
    forall i | 0 <= i < |text| :: |abc.lower(text[i])| == 1
  }

  /** Every stretch is aligned in the strict mode, and in the loose one when folding is one to one. */
  lemma {:induction false} AlwaysAligned(abc: Alphabet, text: string, mode: Mode, k: nat, m: nat)
    requires 0 < m && k + m <= Width(abc, text, mode, |text|)
    requires mode.Strict? || OneToOne(abc, text)
    ensures Aligned(Normalize(abc, text, mode).origin, k, m)
  {
    var origin := Normalize(abc, text, mode).origin;
    if k > 0 && origin[k - 1] == origin[k] {
      OriginStretch(abc, text, mode, origin[k], k - 1);
      OriginStretch(abc, text, mode, origin[k], k);
    }
    if k + m < |origin| && origin[k + m - 1] == origin[k + m] {
      OriginStretch(abc, text, mode, origin[k + m], k + m - 1);
      OriginStretch(abc, text, mode, origin[k + m], k + m);
    }
  }

  // --- The memo ---------------------------------------------------------------

  /** Both normal forms of the last text searched. */
  class HayCache {
    var text: string
    var strict: Option<Normalized>
    var loose: Option<Normalized>
    const abc: Alphabet

    ghost predicate Valid()
      reads this
    {
      && (strict.Some? ==> strict.value == Normalize(abc, text, Strict))
      && (loose.Some? ==> loose.value == Normalize(abc, text, Loose))
    }

    constructor (abc: Alphabet)
      ensures Valid() && this.abc == abc && text == ""
    {
      this.abc := abc;
      text, strict, loose := "", None, None;
    }

    /** Whatever was searched before, the answer is the normal form of the text asked for. */
    method NormalizeHay(hay: string, mode: Mode) returns (r: Normalized)
      requires Valid()
      modifies this
      ensures Valid() && text == hay
      ensures r == Normalize(abc, hay, mode)
      ensures old(text) == hay && mode.Strict? ==> loose == old(loose)
      ensures old(text) == hay && mode.Loose? ==> strict == old(strict)
    {
      if text != hay {
        text, strict, loose := hay, None, None;
      }
      match mode
      case Strict =>
        if strict.None? {
          var n := NormalizeText(abc, hay, mode);
          strict := Some(n);
        }
        r := strict.value;
      case Loose =>
        if loose.None? {
          var n := NormalizeText(abc, hay, mode);
          loose := Some(n);
        }
        r := loose.value;
    }
  }
}
