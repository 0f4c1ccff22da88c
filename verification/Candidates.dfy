/**
 * Finding a quote in a text, strictly and with markdown and case normalised away
 * (live/src/lib/comment-anchor.ts, "Candidate search" and `findQuote`).
 */
module Candidates {
  import opened Wrappers
  import opened Text
  import opened Normalization
  import opened Sorting

  const MAX_CANDIDATES := 500

  /** A slice [start, end) of the original text; `strict` if it was found without loose normalisation. */
  datatype Candidate = Candidate(start: nat, end: nat, strict: bool)

  predicate InText(text: string, c: Candidate) {
    c.start < c.end <= |text|
  }

  /** The original slice behind the occurrence at `i`. */
  function At(hay: Normalized, i: nat, m: nat, strict: bool): Candidate
    requires 0 < m && i + m <= |hay.origin|
  {
    Candidate(hay.origin[i], hay.origin[i + m - 1] + 1, strict)
  }

  function Take<T>(s: seq<T>, n: nat): (r: seq<T>) {
    if |s| <= n then s else s[..n]
  }

  /** The first 500 places where `needle` occurs in the normalised text. */
  function Hits(hay: Normalized, needle: string): (r: seq<nat>)
    ensures |r| <= MAX_CANDIDATES
  {
    Take(Occurrences(hay.norm, needle, 0), MAX_CANDIDATES)
  }

  function FindAll(hay: Normalized, needle: string, strict: bool): (r: seq<Candidate>)
    requires |hay.norm| == |hay.origin|
    ensures needle != "" ==> |r| == |Hits(hay, needle)|
    ensures needle != "" ==> forall j | 0 <= j < |r| ::
                MatchesAt(hay.norm, needle, Hits(hay, needle)[j]) && r[j] == At(hay, Hits(hay, needle)[j], |needle|, strict)
  {
    if needle == "" then []
    else
      var hits := Hits(hay, needle);
      assert forall j | 0 <= j < |hits| :: hits[j] in Occurrences(hay.norm, needle, 0);
      seq(|hits|, j requires 0 <= j < |hits| => At(hay, hits[j], |needle|, strict))
  }

  /** The search loop: one `indexOf` per candidate, restarting one character further on. */
  method FindAllLoop(hay: Normalized, needle: string, strict: bool) returns (out: seq<Candidate>)
    requires |hay.norm| == |hay.origin|
    ensures out == FindAll(hay, needle, strict)
  {
    out := [];
    if needle == "" {
      return;
    }
    var from := 0;
    ghost var hits: seq<nat>, all := [], Occurrences(hay.norm, needle, 0);
    while |out| < MAX_CANDIDATES
      invariant |out| <= MAX_CANDIDATES && Lists(hay, needle, strict, hits, out)
      invariant all == hits + Occurrences(hay.norm, needle, from)
      decreases MAX_CANDIDATES - |out|
    {
      var i := IndexOf(hay.norm, needle, from);
      if i < 0 {
        NoOccurrences(hay.norm, needle, from);
        break;
      }
      NextOccurrence(hay.norm, needle, from, i);
      ListsNext(hay, needle, strict, hits, out, i);
      Regroup(hits, [i], Occurrences(hay.norm, needle, i + 1));
      out, hits := out + [At(hay, i, |needle|, strict)], hits + [i];
      from := i + 1;
    }
    ListsAll(hay, needle, strict, hits, out);
  }

  /** `out` lists the candidates behind `hits`. */
  ghost predicate Lists(hay: Normalized, needle: string, strict: bool, hits: seq<nat>, out: seq<Candidate>)
    requires |hay.norm| == |hay.origin| && needle != ""
  {
    && |hits| == |out|
    && forall j | 0 <= j < |out| ::
         MatchesAt(hay.norm, needle, hits[j]) && out[j] == At(hay, hits[j], |needle|, strict)
  }

  lemma ListsNext(hay: Normalized, needle: string, strict: bool, hits: seq<nat>, out: seq<Candidate>, i: nat)
    requires |hay.norm| == |hay.origin| && needle != ""
    requires Lists(hay, needle, strict, hits, out) && MatchesAt(hay.norm, needle, i)
    ensures Lists(hay, needle, strict, hits + [i], out + [At(hay, i, |needle|, strict)])
  {
  }

  lemma ListsAll(hay: Normalized, needle: string, strict: bool, hits: seq<nat>, out: seq<Candidate>)
    requires |hay.norm| == |hay.origin| && needle != ""
    requires Lists(hay, needle, strict, hits, out) && hits <= Occurrences(hay.norm, needle, 0)
    requires |out| == MAX_CANDIDATES || (|out| < MAX_CANDIDATES && hits == Occurrences(hay.norm, needle, 0))
    ensures out == FindAll(hay, needle, strict)
  {
    assert hits == Hits(hay, needle);
  }

  lemma {:induction false} NoOccurrences(s: string, t: string, from: nat)
    requires IndexOf(s, t, from) == -1
    ensures Occurrences(s, t, from) == []
    decreases |s| - from
  {
    if from + |t| <= |s| {
      NoOccurrences(s, t, from + 1);
    }
  }

  /** The next hit of the search is the head of the remaining occurrences. */
  lemma NextOccurrence(s: string, t: string, from: nat, i: nat)
    requires IndexOf(s, t, from) == i
    ensures MatchesAt(s, t, i) && Occurrences(s, t, from) == [i] + Occurrences(s, t, i + 1)
  {
    OccurrencesSkip(s, t, from, i);
  }

  lemma CandidateIndex(hay: Normalized, needle: string, strict: bool, c: Candidate) returns (i: nat)
    requires |hay.norm| == |hay.origin| && c in FindAll(hay, needle, strict)
    ensures needle != "" && i in Hits(hay, needle) && MatchesAt(hay.norm, needle, i)
    ensures c == At(hay, i, |needle|, strict)
  {
    var r := FindAll(hay, needle, strict);
    var j :| 0 <= j < |r| && r[j] == c;
    i := Hits(hay, needle)[j];
  }

  lemma IndexCandidate(hay: Normalized, needle: string, strict: bool, i: nat)
    requires |hay.norm| == |hay.origin| && needle != ""
    requires i in Hits(hay, needle)
    ensures MatchesAt(hay.norm, needle, i)
    ensures At(hay, i, |needle|, strict) in FindAll(hay, needle, strict)
  {
    var r, hits := FindAll(hay, needle, strict), Hits(hay, needle);
    var j :| 0 <= j < |hits| && hits[j] == i;
    assert r[j] == At(hay, i, |needle|, strict);
  }

  /** Every candidate is a non-empty slice of the text whose normal form is the needle. */
  lemma {:induction false} FindAllSound(abc: Alphabet, text: string, mode: Mode, needle: string, strict: bool, c: Candidate)
    requires c in FindAll(Normalize(abc, text, mode), needle, strict)
    ensures c.strict == strict && InText(text, c)
    ensures mode.Strict? || OneToOne(abc, text) ==> Normalize(abc, text[c.start..c.end], mode).norm == needle
  {
    var i := CandidateIndex(Normalize(abc, text, mode), needle, strict, c);
    AtSound(abc, text, mode, i, |needle|, strict);
  }

  lemma {:induction false} AtSound(abc: Alphabet, text: string, mode: Mode, i: nat, m: nat, strict: bool)
    requires 0 < m && i + m <= Width(abc, text, mode, |text|)
    ensures var n := Normalize(abc, text, mode);
            var c := At(n, i, m, strict);
            && InText(text, c)
            && (mode.Strict? || OneToOne(abc, text) ==> Normalize(abc, text[c.start..c.end], mode).norm == n.norm[i..i + m])
  {
    SliceNormalizesBack(abc, text, mode, i, m);
    if mode.Strict? || OneToOne(abc, text) {
      AlwaysAligned(abc, text, mode, i, m);
    }
  }

  /**
   * The capital dotted I lower-cases to two characters. A loose search for "i" then finds it, although the whole
   * character, which is what the candidate covers, does not normalise back to "i".
   */
  lemma DottedCapitalFoundInHalf(abc: Alphabet)
    requires abc.lower('\U{0130}') == "i\U{0307}"
    ensures var text := "\U{0130}";
            && FindAll(Normalize(abc, text, Loose), "i", false) == [Candidate(0, 1, false)]
            && Normalize(abc, text[0..1], Loose).norm != "i"
            && !Aligned(Normalize(abc, text, Loose).origin, 0, 1)
  {
    var text, hay := "\U{0130}", Normalize(abc, "\U{0130}", Loose);
    DottedCapital(abc);
    assert text[0..1] == text;
    FirstOfTwo('i', '\U{0307}');
    assert Hits(hay, "i") == [0];
  }

  lemma FirstOfTwo(c: char, d: char)
    requires c != d
    ensures Occurrences([c, d], [c], 0) == [0]
  {
    MatchesChar([c, d], c, 0);
    MatchesChar([c, d], c, 1);
    assert Occurrences([c, d], [c], 2) == [];
    assert Occurrences([c, d], [c], 1) == [];
  }

  lemma DottedCapital(abc: Alphabet)
    requires abc.lower('\U{0130}') == "i\U{0307}"
    ensures Normalize(abc, "\U{0130}", Loose) == Normalized("i\U{0307}", [0, 0])
  {
    assert NormalizeUpTo(abc, "\U{0130}", Loose, 0) == Normalized("", []);
    assert Normalization.Repeat(0, 2) == [0, 0];
    assert !LooseDrop('\U{0130}');
  }

  /** Candidates come in the order of the text, each starting after the one before (one-to-one folding). */
  lemma {:induction false} FindAllOrdered(abc: Alphabet, text: string, mode: Mode, needle: string, strict: bool, j: nat, k: nat)
    requires j < k < |FindAll(Normalize(abc, text, mode), needle, strict)|
    ensures var r := FindAll(Normalize(abc, text, mode), needle, strict);
            && r[j].start <= r[k].start && r[j].end <= r[k].end
            && (mode.Strict? || OneToOne(abc, text) ==> r[j].start < r[k].start)
  {
    var hay := Normalize(abc, text, mode);
    OccurrencesIncrease(hay.norm, needle, 0);
    var p, q, m := Hits(hay, needle)[j], Hits(hay, needle)[k], |needle|;
    assert p < q && MatchesAt(hay.norm, needle, p) && MatchesAt(hay.norm, needle, q);
    OriginNonDecreasing(abc, text, mode, p, q);
    OriginNonDecreasing(abc, text, mode, p + m - 1, q + m - 1);
    if mode.Strict? || OneToOne(abc, text) {
      OriginNonDecreasing(abc, text, mode, p, q - 1);
      OriginNonDecreasing(abc, text, mode, q - 1, q);
      AlwaysAligned(abc, text, mode, q, m);
    }
  }

  /** What a slice gives starts and ends inside the slice. */
  lemma {:induction false} StretchInside(abc: Alphabet, text: string, mode: Mode, a: nat, b: nat)
    requires a < b <= |text|
    requires Width(abc, text, mode, a) < Width(abc, text, mode, b) <= Width(abc, text, mode, |text|)
    ensures var origin := Normalize(abc, text, mode).origin;
            var first, last := origin[Width(abc, text, mode, a)], origin[Width(abc, text, mode, b) - 1];
            && a <= first && last < b
            && (Emit(abc, text, mode, a) != "" ==> first == a)
            && (Emit(abc, text, mode, b - 1) != "" ==> last == b - 1)
  {
    var i, k := Width(abc, text, mode, a), Width(abc, text, mode, b) - 1;
    OriginStretch(abc, text, mode, a, i);
    OriginStretch(abc, text, mode, b - 1, k);
    UpToStep(abc, text, mode, a + 1);
    UpToStep(abc, text, mode, b);
    if b < |text| {
      OriginStretch(abc, text, mode, b, k);
    }
  }

  /**
   * Nothing is missed below the cap: a slice whose normal form is the needle contains a candidate,
   * which is the slice itself when the slice starts and ends with characters that survive.
   */
  lemma {:induction false} FindAllComplete(abc: Alphabet, text: string, mode: Mode, needle: string, strict: bool, a: nat, b: nat)
    requires a <= b <= |text| && StartsAfresh(text, mode, a)
    requires needle != "" && Normalize(abc, text[a..b], mode).norm == needle
    requires Width(abc, text, mode, a) in Hits(Normalize(abc, text, mode), needle)
    ensures exists c :: c in FindAll(Normalize(abc, text, mode), needle, strict) && a <= c.start && c.end <= b
                        && (Emit(abc, text, mode, a) != "" && Emit(abc, text, mode, b - 1) != "" ==> c == Candidate(a, b, strict))
  {
    SliceWidth(abc, text, mode, a, b);
    IndexCandidate(Normalize(abc, text, mode), needle, strict, Width(abc, text, mode, a));
    var c := At(Normalize(abc, text, mode), Width(abc, text, mode, a), |needle|, strict);
    StretchCandidate(abc, text, mode, strict, a, b, |needle|, c);
  }

  lemma SliceWidth(abc: Alphabet, text: string, mode: Mode, a: nat, b: nat)
    requires a <= b <= |text| && StartsAfresh(text, mode, a)
    ensures Width(abc, text, mode, b) == Width(abc, text, mode, a) + |Normalize(abc, text[a..b], mode).norm| <= Width(abc, text, mode, |text|)
  {
    NormalizeSlice(abc, text, mode, a, b);
  }

  lemma StretchCandidate(abc: Alphabet, text: string, mode: Mode, strict: bool, a: nat, b: nat, m: nat, c: Candidate)
    requires a <= b <= |text| && 0 < m && Width(abc, text, mode, b) == Width(abc, text, mode, a) + m <= Width(abc, text, mode, |text|)
    requires c == At(Normalize(abc, text, mode), Width(abc, text, mode, a), m, strict)
    ensures a < b && a <= c.start && c.end <= b
    ensures Emit(abc, text, mode, a) != "" && Emit(abc, text, mode, b - 1) != "" ==> c == Candidate(a, b, strict)
  {
    StretchInside(abc, text, mode, a, b);
  }

  /** How often a text occurs before a place, overlapping occurrences included. */
  function CountBefore(s: string, t: string, n: nat): nat {
    if n == 0 then 0 else CountBefore(s, t, n - 1) + if MatchesAt(s, t, n - 1) then 1 else 0
  }

  lemma {:induction false} OccurrencesFrom(s: string, t: string, n: nat)
    ensures CountBefore(s, t, n) <= |Occurrences(s, t, 0)|
    ensures Occurrences(s, t, 0)[CountBefore(s, t, n)..] == Occurrences(s, t, n)
  {
    if n > 0 {
      OccurrencesFrom(s, t, n - 1);
      OccurrencesStep(s, t, n - 1);
      var all, k := Occurrences(s, t, 0), CountBefore(s, t, n - 1);
      if MatchesAt(s, t, n - 1) {
        assert all[k..] == [n - 1] + Occurrences(s, t, n);
        assert all[k + 1..] == all[k..][1..];
      }
    }
  }

  lemma OccurrencesStep(s: string, t: string, i: nat)
    ensures Occurrences(s, t, i) == (if MatchesAt(s, t, i) then [i] else []) + Occurrences(s, t, i + 1)
  {
  }

  /** Just the first 500 occurrences count. */
  lemma {:induction false} HitsMeaning(hay: Normalized, needle: string, i: nat)
    ensures i in Hits(hay, needle) <==> MatchesAt(hay.norm, needle, i) && CountBefore(hay.norm, needle, i) < 500
  {
    var all, k := Occurrences(hay.norm, needle, 0), CountBefore(hay.norm, needle, i);
    OccurrencesFrom(hay.norm, needle, i);
    OccurrencesStep(hay.norm, needle, i);
    OccurrencesIncrease(hay.norm, needle, 0);
    if MatchesAt(hay.norm, needle, i) {
      assert all[k] == all[k..][0] == i;
    }
  }

  /** The same position is always among the hits when the needle occurs at most 500 times. */
  lemma HitsComplete(hay: Normalized, needle: string, i: nat)
    requires MatchesAt(hay.norm, needle, i) && |Occurrences(hay.norm, needle, 0)| <= MAX_CANDIDATES
    ensures i in Hits(hay, needle)
  {
  }

  // --- Both modes together ----------------------------------------------------

  predicate Overlaps(a: Candidate, b: Candidate) {
    a.start < b.end && b.start < a.end
  }

  /** The occurrences of a quote in one mode. */
  function Find(abc: Alphabet, text: string, needle: string, mode: Mode): seq<Candidate> {
    FindAll(Normalize(abc, text, mode), NormalizeNeedle(abc, needle, mode), mode.Strict?)
  }

  predicate Clear(strict: seq<Candidate>, c: Candidate) {
    forall s | s in strict :: !Overlaps(s, c)
  }

  predicate StartsBefore(a: Candidate, b: Candidate) {
    a.start <= b.start
  }

  /** The occurrences of a quote, loose ones only where no strict one overlaps, in text order. */
  function FindQuote(abc: Alphabet, text: string, needle: string): seq<Candidate> {
    var strict := Find(abc, text, needle, Strict);
    var loose := Filter(Find(abc, text, needle, Loose), (c: Candidate) => Clear(strict, c));
    Sort(strict + loose, StartsBefore)
  }

  /** What is listed: all strict hits, and the loose hits that overlap none of them. */
  lemma {:induction false} FindQuoteMembers(abc: Alphabet, text: string, needle: string, c: Candidate)
    ensures c in FindQuote(abc, text, needle)
            <==> c in Find(abc, text, needle, Strict)
                 || (c in Find(abc, text, needle, Loose)
                     && forall s | s in Find(abc, text, needle, Strict) :: s.end <= c.start || c.end <= s.start)
    ensures c in FindQuote(abc, text, needle) ==>
              && InText(text, c)
              && (c.strict <==> c in Find(abc, text, needle, Strict))
  {
    var strict := Find(abc, text, needle, Strict);
    var loose := Filter(Find(abc, text, needle, Loose), (c: Candidate) => Clear(strict, c));
    SameElements(strict + loose, FindQuote(abc, text, needle), c);
    if c in strict {
      FindAllSound(abc, text, Strict, NormalizeNeedle(abc, needle, Strict), true, c);
    }
    if c in Find(abc, text, needle, Loose) {
      FindAllSound(abc, text, Loose, NormalizeNeedle(abc, needle, Loose), false, c);
    }
  }

  /** Listed occurrences are in text order, and no two are equal when folding is one to one. */
  lemma {:induction false} FindQuoteOrdered(abc: Alphabet, text: string, needle: string)
    requires OneToOne(abc, text)
    ensures forall j, k | 0 <= j < k < |FindQuote(abc, text, needle)| ::
              FindQuote(abc, text, needle)[j].start < FindQuote(abc, text, needle)[k].start
  {
    var strict, found := Find(abc, text, needle, Strict), Find(abc, text, needle, Loose);
    var clear := (c: Candidate) => Clear(strict, c);
    var loose := Filter(found, clear);
    var r := Sort(strict + loose, StartsBefore);
    SortSorts(strict + loose, StartsBefore);
    forall j, k | 0 <= j < k < |strict| ensures strict[j].start < strict[k].start {
      FindAllOrdered(abc, text, Strict, NormalizeNeedle(abc, needle, Strict), true, j, k);
    }
    forall j, k | 0 <= j < k < |found| ensures found[j].start < found[k].start {
      FindAllOrdered(abc, text, Loose, NormalizeNeedle(abc, needle, Loose), false, j, k);
    }
    FilterKeepsOrder(found, clear);
    forall j, k | 0 <= j < |strict| && 0 <= k < |loose| ensures strict[j].start != loose[k].start {
      FindAllSound(abc, text, Strict, NormalizeNeedle(abc, needle, Strict), true, strict[j]);
      FindAllSound(abc, text, Loose, NormalizeNeedle(abc, needle, Loose), false, loose[k]);
      assert loose[k] in loose && strict[j] in strict && Clear(strict, loose[k]);
    }
    DistinctStarts(strict + loose, r);
  }

  lemma {:induction false} FilterKeepsOrder(s: seq<Candidate>, keep: Candidate -> bool)
    requires forall j, k | 0 <= j < k < |s| :: s[j].start < s[k].start
    ensures forall j, k | 0 <= j < k < |Filter(s, keep)| :: Filter(s, keep)[j].start < Filter(s, keep)[k].start
  {
    if s != [] {
      FilterKeepsOrder(s[1..], keep);
      var rest := Filter(s[1..], keep);
      forall k | 0 <= k < |rest| ensures s[0].start < rest[k].start {
        assert rest[k] in rest && rest[k] in s[1..];
      }
    }
  }

  lemma DistinctStarts(s: seq<Candidate>, r: seq<Candidate>)
    requires forall j, k | 0 <= j < k < |s| :: s[j].start != s[k].start
    requires multiset(r) == multiset(s) && Sorted(r, StartsBefore)
    ensures forall j, k | 0 <= j < k < |r| :: r[j].start < r[k].start
  {
    forall j, k | 0 <= j < k < |r| ensures r[j].start < r[k].start {
      SameElements(s, r, r[j]);
      SameElements(s, r, r[k]);
      if r[j].start == r[k].start {
        CountedTwice(r, j, k);
        OnceEach(s, r[j]);
      }
    }
  }

  lemma {:induction false} OnceEach(s: seq<Candidate>, c: Candidate)
    requires forall j, k | 0 <= j < k < |s| :: s[j].start != s[k].start
    requires c in s
    ensures multiset(s)[c] == 1
  {
    assert s == [s[0]] + s[1..];
    if c == s[0] {
      assert c !in s[1..];
      assert c !in multiset(s[1..]);
    } else {
      OnceEach(s[1..], c);
    }
  }

  /** A quote that occurs in either normal form of the text has a listed occurrence. */
  lemma {:induction false} QuoteOccursListed(abc: Alphabet, text: string, needle: string, mode: Mode, i: nat)
    requires NormalizeNeedle(abc, needle, mode) != ""
    requires MatchesAt(Normalize(abc, text, mode).norm, NormalizeNeedle(abc, needle, mode), i)
    ensures FindQuote(abc, text, needle) != []
  {
    var hay, n := Normalize(abc, text, mode), NormalizeNeedle(abc, needle, mode);
    assert i in Occurrences(hay.norm, n, 0);
    assert Hits(hay, n) != [];
    var c := Find(abc, text, needle, mode)[0];
    assert c in Find(abc, text, needle, mode);
    var strict := Find(abc, text, needle, Strict);
    if strict != [] {
      assert strict[0] in strict;
      FindQuoteMembers(abc, text, needle, strict[0]);
    } else {
      FindQuoteMembers(abc, text, needle, c);
    }
  }
}
