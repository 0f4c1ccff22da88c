/**
 * Which of its four stages decides where an anchor is, in any text space, and what it then says
 * (live/src/lib/comment-anchor.ts, `resolveAnchor`, `findPartial` and `resolveAnchorInView`).
 */
module AnchorStages {
  import opened Wrappers
  import opened Text
  import opened Sorting
  import opened Normalization
  import opened Candidates
  import opened Context
  import opened TextSpaces
  import opened Anchor
  import L = LineRemap

  // --- What comes with a comment --------------------------------------------------------

  /** A quote counts unless it is blank. */
  lemma UsableMeaning(input: Input)
    ensures UsableQuote(input) == if input.quote.Some? && !AllBlank(input.quote.value.exact) then input.quote else None
  {
    if input.quote.Some? {
      TrimEmpty(input.quote.value.exact);
    }
  }

  /** A diff tells where lines went if it changes nothing, or if some of its entries have line numbers. */
  predicate TellsLines(changes: seq<L.Change>) {
    changes == [] || exists c | c in changes :: c.oldLine != None || c.newLine != None
  }

  /** The last line of a comment is not before its first. */
  function LastLine(input: Input): int
    requires input.lineStart.Some?
  {
    if input.lineEnd.Some? && input.lineEnd.value > input.lineStart.value then input.lineEnd.value else input.lineStart.value
  }

  predicate HasLines(input: Input) {
    input.lineStart.Some? && input.lineStart.value >= 1
  }

  /** Lines count as stored while the file is unchanged, where the diff moved them if one tells, and not at all otherwise. */
  lemma TrustedMeaning(input: Input)
    ensures !HasLines(input) ==> TrustedLines(input) == None
    ensures HasLines(input) && !input.stale ==>
              TrustedLines(input) == Some(L.Range(input.lineStart.value, LastLine(input), false, false))
    ensures HasLines(input) && input.stale && input.changes.Some? && TellsLines(input.changes.value) ==>
              TrustedLines(input) == Some(L.RemapLineRange(input.changes.value, input.lineStart.value, LastLine(input)))
    ensures HasLines(input) && input.stale && (input.changes.None? || !TellsLines(input.changes.value)) ==> TrustedLines(input) == None
  {
  }

  /** A comment with lines only shows them where `TrustedMeaning` puts them, or, if nothing tells, as stored and in doubt. */
  lemma LinesOnlyShown(abc: Alphabet, text: string, input: Input, lines: L.Range, k: nat)
    requires (input.quote.None? || AllBlank(input.quote.value.exact)) && HasLines(input) && k <= |text|
    requires lines == if !input.stale then L.Range(input.lineStart.value, LastLine(input), false, false)
                      else if input.changes.Some? && TellsLines(input.changes.value)
                      then L.RemapLineRange(input.changes.value, input.lineStart.value, LastLine(input))
                      else L.Range(input.lineStart.value, LastLine(input), true, false)
    ensures var r := ResolveAnchor(abc, SourceSpace(text), input);
            && (r.Lost? <==> lines.deleted || lines.lineStart > LineCount(text))
            && (r.Found? ==>
                  && r.how.ByLines? && !r.ambiguous && (r.status.Moved? <==> lines.touched)
                  && r.lineStart == Some(lines.lineStart) && r.lineEnd == Some(lines.lineEnd)
                  && (r.start <= k <= r.end
                      <==> Max(1, lines.lineStart) <= LineOf(text, k) <= Max(Max(1, lines.lineStart), lines.lineEnd)))
  {
    UsableMeaning(input);
    TrustedMeaning(input);
    LinesOnlyMeaning(abc, text, input, k);
    DecideLinesOnly(SourceSpace(text), input);
  }

  // --- What a search for the quote brings up ------------------------------------------------

  /** A listed occurrence that may be the quoted one: its context fits, or, without context, it is as good a match as there is. */
  ghost predicate MayBe(abc: Alphabet, text: string, quote: Quote, c: Candidate) {
    && c in FindQuote(abc, text, quote.exact)
    && if HasContext(quote) then !Conflicts(abc, text, c, quote)
       else c.strict || forall d | d in FindQuote(abc, text, quote.exact) :: !d.strict
  }

  /** One whose context does not fit. */
  ghost predicate Misfit(abc: Alphabet, text: string, quote: Quote, c: Candidate) {
    HasContext(quote) && c in FindQuote(abc, text, quote.exact) && Conflicts(abc, text, c, quote)
  }

  lemma FoundMeaning(abc: Alphabet, text: string, quote: Quote, c: Candidate)
    ensures c in Eligible(abc, text, quote) <==> MayBe(abc, text, quote, c)
    ensures c in Conflicting(abc, text, quote) <==> Misfit(abc, text, quote, c)
  {
    EligibleMembers(abc, text, quote, c);
    if !HasContext(quote) {
      StrictFirst(FindQuote(abc, text, quote.exact), Agreeing(abc, text, quote), c);
    }
  }

  lemma StrictFirst(all: seq<Candidate>, agrees: Candidate -> bool, c: Candidate)
    ensures c in EligibleOf(all, false, agrees) <==> c in all && (c.strict || forall d | d in all :: !d.strict)
  {
    var strict := Filter(all, IsStrict);
    assert forall d | d in strict :: IsStrict(d);
    assert forall d | d in all && IsStrict(d) :: d in strict;
    if strict != [] {
      assert strict[0] in strict;
    }
  }

  /** The one that may be meant is certain: it is the only one, or its context singles it out. */
  ghost predicate Certain(abc: Alphabet, text: string, quote: Quote, c: Candidate) {
    var cands := Eligible(abc, text, quote);
    cands == [c] || (|cands| != 1 && c in cands && SingledOut(Scorer(abc, text, quote), cands, c))
  }

  lemma PickMeaning(abc: Alphabet, text: string, quote: Quote, c: Candidate)
    ensures PickEligible(abc, text, quote) == Some(c) <==> Certain(abc, text, quote, c)
  {
  }

  // --- Text order -----------------------------------------------------------------------------------

  ghost predicate InOrder(cands: seq<Candidate>) {
    forall i, j | 0 <= i < j < |cands| :: cands[i].start <= cands[j].start
  }

  lemma {:induction false} FilterInOrder(cands: seq<Candidate>, keep: Candidate -> bool)
    requires InOrder(cands)
    ensures InOrder(Filter(cands, keep))
  {
    if cands != [] {
      FilterInOrder(cands[1..], keep);
      var rest := Filter(cands[1..], keep);
      forall k | 0 <= k < |rest| ensures cands[0].start <= rest[k].start {
        assert rest[k] in cands[1..];
      }
    }
  }

  /** The occurrences are searched in the order of the text. */
  lemma FoundInOrder(abc: Alphabet, text: string, quote: Quote)
    ensures InOrder(Eligible(abc, text, quote)) && InOrder(Conflicting(abc, text, quote))
  {
    var strict := Find(abc, text, quote.exact, Strict);
    var loose := Filter(Find(abc, text, quote.exact, Loose), (c: Candidate) => Clear(strict, c));
    var all := FindQuote(abc, text, quote.exact);
    SortSorts(strict + loose, StartsBefore);
    SortedInOrder(all);
    FilterInOrder(all, Agreeing(abc, text, quote));
    FilterInOrder(all, Disagreeing(abc, text, quote));
    FilterInOrder(all, IsStrict);
  }

  lemma SortedInOrder(cands: seq<Candidate>)
    requires Sorted(cands, StartsBefore)
    ensures InOrder(cands)
  {
    forall i, j | 0 <= i < j < |cands| ensures cands[i].start <= cands[j].start {
      assert StartsBefore(cands[i], cands[j]);
    }
  }

  lemma HeadIsFirst(cands: seq<Candidate>)
    requires InOrder(cands) && cands != []
    ensures forall d | d in cands :: cands[0].start <= d.start
  {
  }

  lemma {:induction false} FirstWhereIsFirst(cands: seq<Candidate>, p: Candidate -> bool)
    requires InOrder(cands) && FirstWhere(cands, p).Some?
    ensures forall d | d in cands && p(d) :: FirstWhere(cands, p).value.start <= d.start
  {
    if !p(cands[0]) {
      FirstWhereIsFirst(cands[1..], p);
    }
  }

  // --- The stages ------------------------------------------------------------------------------------

  /** `r` says that the anchor is at `c`. */
  predicate SaysAt(r: Resolution, status: Status, c: Candidate, ambiguous: bool) {
    r.Found? && r.status == status && r.how.ByQuote? && r.start == c.start && r.end == c.end && r.ambiguous == ambiguous
  }

  /** The search for a comment's quote, with the lines that count. */
  ghost predicate Searched(abc: Alphabet, space: TextSpace, input: Input, quote: Quote, lines: Option<L.Range>, r: Resolution) {
    UsableQuote(input) == Some(quote) && TrustedLines(input) == lines && r == ResolveAnchor(abc, space, input)
  }

  ghost predicate NoneCertain(abc: Alphabet, text: string, quote: Quote) {
    forall c :: !Certain(abc, text, quote, c)
  }

  predicate Live(lines: Option<L.Range>) {
    lines.Some? && !lines.value.deleted
  }

  /** The line an offset is on, if the space knows it. */
  function LineIn(space: TextSpace, offset: int): Option<int> {
    match space.toLine case None => None case Some(lineOf) => lineOf(offset)
  }

  predicate Known(space: TextSpace, c: Candidate) {
    LineIn(space, c.start).Some?
  }

  /** Of all candidates whose line is known, none is nearer to the line than `a`. */
  ghost predicate Nearest(space: TextSpace, cands: iset<Candidate>, a: Candidate, line: int) {
    && a in cands && Known(space, a)
    && forall d | d in cands && Known(space, d) :: Apart(LineIn(space, a.start).value, line) <= Apart(LineIn(space, d.start).value, line)
  }

  function Apart(a: int, b: int): nat {
    if a < b then b - a else a - b
  }

  /** `a` is a nearest one if a line is given and some are known, and else the first in the text. */
  ghost predicate BestGuess(space: TextSpace, cands: iset<Candidate>, a: Candidate, line: Option<int>) {
    if line.Some? && exists d :: d in cands && Known(space, d) then Nearest(space, cands, a, line.value)
    else a in cands && forall d | d in cands :: a.start <= d.start
  }

  ghost function Among(cands: seq<Candidate>): iset<Candidate> {
    iset c | c in cands
  }

  ghost function Meant(abc: Alphabet, text: string, quote: Quote): iset<Candidate> {
    iset c | MayBe(abc, text, quote, c)
  }

  ghost function Misfits(abc: Alphabet, text: string, quote: Quote): iset<Candidate> {
    iset c | Misfit(abc, text, quote, c)
  }

  lemma MeantAre(abc: Alphabet, text: string, quote: Quote)
    ensures Among(Eligible(abc, text, quote)) == Meant(abc, text, quote)
    ensures Among(Conflicting(abc, text, quote)) == Misfits(abc, text, quote)
  {
    forall c ensures c in Eligible(abc, text, quote) <==> MayBe(abc, text, quote, c) {
      FoundMeaning(abc, text, quote, c);
    }
    forall c ensures c in Conflicting(abc, text, quote) <==> Misfit(abc, text, quote, c) {
      FoundMeaning(abc, text, quote, c);
    }
  }

  /** What a search brings up, in the order of the text; nothing is picked unless it is certain. */
  ghost predicate BroughtUp(abc: Alphabet, space: TextSpace, quote: Quote, found: Evidence) {
    && Among(found.eligible) == Meant(abc, space.text, quote) && Among(found.conflicting) == Misfits(abc, space.text, quote)
    && InOrder(found.eligible) && InOrder(found.conflicting)
    && forall c :: found.picked == Some(c) <==> Certain(abc, space.text, quote, c)
  }

  lemma SearchBringsUp(abc: Alphabet, space: TextSpace, quote: Quote, line: Option<int>)
    ensures BroughtUp(abc, space, quote, Search(abc, space, quote, line))
  {
    MeantAre(abc, space.text, quote);
    FoundInOrder(abc, space.text, quote);
    forall c ensures PickEligible(abc, space.text, quote) == Some(c) <==> Certain(abc, space.text, quote, c) {
      PickMeaning(abc, space.text, quote, c);
    }
  }

  /** The decision, on what the search brought up. */
  lemma Decided(abc: Alphabet, space: TextSpace, input: Input, quote: Quote, lines: Option<L.Range>, r: Resolution) returns (found: Evidence)
    requires Searched(abc, space, input, quote, lines, r)
    ensures BroughtUp(abc, space, quote, found) && r == Decide(space, input, lines, Some(found))
    ensures found.partial == FindPartial(abc, space, quote, LineHint(input, lines))
  {
    found := Search(abc, space, quote, Hint(input, lines));
    SearchBringsUp(abc, space, quote, Hint(input, lines));
  }

  /** The line that tells places apart: where the lines are now, or else where they were. */
  function LineHint(input: Input, lines: Option<L.Range>): Option<int> {
    match lines case Some(now) => Some(now.lineStart) case None => input.lineStart
  }

  lemma NearestMeaning(space: TextSpace, cands: seq<Candidate>, line: int)
    ensures var near := PickNearest(space, cands, Some(line));
            && (near.Some? <==> exists d :: d in cands && Known(space, d))
            && (near.Some? ==> Nearest(space, Among(cands), near.value, line))
  {
  }

  /** Stage 1: a certain occurrence is the anchor. */
  lemma CertainWins(abc: Alphabet, space: TextSpace, input: Input, quote: Quote, lines: Option<L.Range>, r: Resolution, c: Candidate)
    requires Searched(abc, space, input, quote, lines, r) && Certain(abc, space.text, quote, c)
    ensures SaysAt(r, Anchored, c, false)
  {
    var found := Decided(abc, space, input, quote, lines, r);
    DecidePicked(space, input, lines, found, c);
  }

  lemma DecidePicked(space: TextSpace, input: Input, lines: Option<L.Range>, found: Evidence, c: Candidate)
    requires found.picked == Some(c)
    ensures SaysAt(Decide(space, input, lines, Some(found)), Anchored, c, false)
  {
  }

  lemma PickedIsCertain(abc: Alphabet, space: TextSpace, quote: Quote, found: Evidence)
    requires BroughtUp(abc, space, quote, found)
    ensures found.picked.Some? ==> Certain(abc, space.text, quote, found.picked.value)
  {
  }

  lemma NothingPicked(abc: Alphabet, space: TextSpace, quote: Quote, found: Evidence)
    requires BroughtUp(abc, space, quote, found) && NoneCertain(abc, space.text, quote)
    ensures found.picked == None
  {
    PickedIsCertain(abc, space, quote, found);
  }

  /** Stage 2: lines that count settle which of several is meant: one nearest to them. */
  lemma NearestIsMeant(abc: Alphabet, space: TextSpace, input: Input, quote: Quote, lines: Option<L.Range>, r: Resolution, c: Candidate)
    returns (a: Candidate)
    requires Searched(abc, space, input, quote, lines, r) && NoneCertain(abc, space.text, quote)
    requires Live(lines) && MayBe(abc, space.text, quote, c) && Known(space, c)
    ensures Nearest(space, Meant(abc, space.text, quote), a, lines.value.lineStart) && SaysAt(r, Anchored, a, false)
  {
    var found := Decided(abc, space, input, quote, lines, r);
    NothingPicked(abc, space, quote, found);
    assert c in Among(found.eligible);
    a := DecideNearest(space, input, lines, found, c);
  }

  lemma DecideNearest(space: TextSpace, input: Input, lines: Option<L.Range>, found: Evidence, c: Candidate) returns (a: Candidate)
    requires found.picked == None && Live(lines) && c in found.eligible && Known(space, c)
    ensures Nearest(space, Among(found.eligible), a, lines.value.lineStart)
    ensures SaysAt(Decide(space, input, lines, Some(found)), Anchored, a, false)
  {
    NearestMeaning(space, found.eligible, lines.value.lineStart);
    a := PickNearest(space, found.eligible, Some(lines.value.lineStart)).value;
  }

  /** No occurrence that may be meant has a known line. */
  ghost predicate NoneKnown(abc: Alphabet, space: TextSpace, quote: Quote) {
    forall d :: MayBe(abc, space.text, quote, d) ==> !Known(space, d)
  }

  lemma NoneNear(abc: Alphabet, space: TextSpace, quote: Quote, found: Evidence, line: int)
    requires BroughtUp(abc, space, quote, found) && NoneKnown(abc, space, quote)
    ensures PickNearest(space, found.eligible, Some(line)) == None
  {
    NearestMeaning(space, found.eligible, line);
    forall d | d in found.eligible ensures !Known(space, d) {
      assert d in Among(found.eligible);
    }
  }

  /** The lines of a candidate are known, and some others have one of them. */
  predicate OnSomeOf(space: TextSpace, c: Candidate, lines: L.Range) {
    var first, last := LineIn(space, c.start), LineIn(space, Max(c.start, c.end - 1));
    first.Some? && last.Some? && first.value <= lines.lineEnd && lines.lineStart <= last.value
  }

  /** Stage 2: failing that, the first misfit that is on the lines. */
  lemma LinesConfirm(abc: Alphabet, space: TextSpace, input: Input, quote: Quote, lines: Option<L.Range>, r: Resolution, c: Candidate)
    returns (a: Candidate)
    requires Searched(abc, space, input, quote, lines, r) && NoneCertain(abc, space.text, quote) && NoneKnown(abc, space, quote)
    requires Live(lines) && Misfit(abc, space.text, quote, c) && OnSomeOf(space, c, lines.value)
    ensures Misfit(abc, space.text, quote, a) && OnSomeOf(space, a, lines.value) && SaysAt(r, Anchored, a, false)
    ensures forall d | Misfit(abc, space.text, quote, d) && OnSomeOf(space, d, lines.value) :: a.start <= d.start
  {
    var found := Decided(abc, space, input, quote, lines, r);
    NothingPicked(abc, space, quote, found);
    NoneNear(abc, space, quote, found, lines.value.lineStart);
    assert c in Misfits(abc, space.text, quote);
    assert c in Among(found.conflicting);
    a := DecideConfirms(space, input, lines, found, c);
    assert a in Among(found.conflicting);
    forall d | Misfit(abc, space.text, quote, d) && OnSomeOf(space, d, lines.value) ensures a.start <= d.start {
      assert d in Misfits(abc, space.text, quote);
      assert d in Among(found.conflicting);
    }
  }

  lemma DecideConfirms(space: TextSpace, input: Input, lines: Option<L.Range>, found: Evidence, c: Candidate) returns (a: Candidate)
    requires found.picked == None && Live(lines) && PickNearest(space, found.eligible, Some(lines.value.lineStart)) == None
    requires c in found.conflicting && OnSomeOf(space, c, lines.value) && InOrder(found.conflicting)
    ensures a in found.conflicting && OnSomeOf(space, a, lines.value)
    ensures forall d | d in found.conflicting && OnSomeOf(space, d, lines.value) :: a.start <= d.start
    ensures SaysAt(Decide(space, input, lines, Some(found)), Anchored, a, false)
  {
    var p := (d: Candidate) => OverlapsLines(space, d, lines.value);
    assert p(c);
    a := FirstWhere(found.conflicting, p).value;
    assert p(a);
    FirstWhereIsFirst(found.conflicting, p);
    forall d | d in found.conflicting && OnSomeOf(space, d, lines.value) ensures a.start <= d.start {
      assert p(d);
    }
  }

  /** No misfit is on the lines. */
  ghost predicate NoneOn(abc: Alphabet, space: TextSpace, quote: Quote, lines: L.Range) {
    forall d :: Misfit(abc, space.text, quote, d) ==> !OnSomeOf(space, d, lines)
  }

  lemma NoneConfirmed(abc: Alphabet, space: TextSpace, quote: Quote, found: Evidence, lines: L.Range)
    requires BroughtUp(abc, space, quote, found) && NoneOn(abc, space, quote, lines)
    ensures forall d | d in found.conflicting :: !OnSomeOf(space, d, lines)
  {
    forall d | d in found.conflicting ensures !OnSomeOf(space, d, lines) {
      assert d in Among(found.conflicting);
      assert d in Misfits(abc, space.text, quote);
    }
  }

  /** Where a space has some lines. */
  function OffsetsIn(space: TextSpace, lines: L.Range): Option<(int, int)> {
    match space.toOffsets case None => None case Some(offsets) => offsets(lines.lineStart, lines.lineEnd)
  }

  /** Stage 2: failing that too, the lines stand for themselves, if the space has them. */
  lemma LinesStandIn(abc: Alphabet, space: TextSpace, input: Input, quote: Quote, lines: Option<L.Range>, r: Resolution)
    requires Searched(abc, space, input, quote, lines, r) && NoneCertain(abc, space.text, quote) && NoneKnown(abc, space, quote)
    requires Live(lines) && NoneOn(abc, space, quote, lines.value) && OffsetsIn(space, lines.value).Some?
    ensures r.Found? && r.how.ByLines? && !r.ambiguous && (r.status.Moved? <==> lines.value.touched)
    ensures (r.start, r.end) == OffsetsIn(space, lines.value).value
    ensures r.lineStart == Some(lines.value.lineStart) && r.lineEnd == Some(lines.value.lineEnd)
  {
    var found := Decided(abc, space, input, quote, lines, r);
    NothingPicked(abc, space, quote, found);
    NoneNear(abc, space, quote, found, lines.value.lineStart);
    NoneConfirmed(abc, space, quote, found, lines.value);
    DecideStandsIn(space, input, lines, found);
  }

  lemma DecideStandsIn(space: TextSpace, input: Input, lines: Option<L.Range>, found: Evidence)
    requires found.picked == None && Live(lines) && PickNearest(space, found.eligible, Some(lines.value.lineStart)) == None
    requires forall d | d in found.conflicting :: !OnSomeOf(space, d, lines.value)
    requires OffsetsIn(space, lines.value).Some?
    ensures var (s, e) := OffsetsIn(space, lines.value).value;
            Decide(space, input, lines, Some(found))
            == Found(if lines.value.touched then Moved else Anchored, ByLines, s, e, Some(lines.value.lineStart), Some(lines.value.lineEnd), false)
  {
  }

  /** Stage 2 has nothing to say: no lines count, or they tell nothing apart, confirm nothing, and the space does not have them. */
  ghost predicate LinesSilent(abc: Alphabet, space: TextSpace, quote: Quote, lines: Option<L.Range>) {
    Live(lines) ==> NoneKnown(abc, space, quote) && NoneOn(abc, space, quote, lines.value) && OffsetsIn(space, lines.value).None?
  }

  lemma DecideSilent(abc: Alphabet, space: TextSpace, input: Input, quote: Quote, lines: Option<L.Range>, found: Evidence)
    requires BroughtUp(abc, space, quote, found) && NoneCertain(abc, space.text, quote) && LinesSilent(abc, space, quote, lines)
    ensures Decide(space, input, lines, Some(found)) == ResolveByQuoteAlone(space, input, found, lines)
  {
    NothingPicked(abc, space, quote, found);
    if Live(lines) {
      NoneNear(abc, space, quote, found, lines.value.lineStart);
      NoneConfirmed(abc, space, quote, found, lines.value);
    }
  }

  lemma GuessMeaning(space: TextSpace, cands: seq<Candidate>, line: Option<int>)
    requires cands != [] && InOrder(cands)
    ensures BestGuess(space, Among(cands), Else(PickNearest(space, cands, line), Head(cands)).value, line)
  {
    HeadIsFirst(cands);
    if line.Some? {
      NearestMeaning(space, cands, line.value);
    }
  }

  /** Stage 3: an occurrence that may be meant is anchored, in doubt. */
  lemma GuessInDoubt(abc: Alphabet, space: TextSpace, input: Input, quote: Quote, lines: Option<L.Range>, r: Resolution, c: Candidate)
    returns (a: Candidate)
    requires Searched(abc, space, input, quote, lines, r) && NoneCertain(abc, space.text, quote) && LinesSilent(abc, space, quote, lines)
    requires MayBe(abc, space.text, quote, c)
    ensures BestGuess(space, Meant(abc, space.text, quote), a, input.lineStart) && SaysAt(r, Anchored, a, true)
  {
    var found := Decided(abc, space, input, quote, lines, r);
    DecideSilent(abc, space, input, quote, lines, found);
    assert c in Meant(abc, space.text, quote);
    assert c in Among(found.eligible);
    GuessMeaning(space, found.eligible, input.lineStart);
    a := Else(PickNearest(space, found.eligible, input.lineStart), Head(found.eligible)).value;
  }

  /** Stage 3: misfits alone are lost if the lines were deleted, and else a guess that is flagged as moved. */
  lemma MisfitsGuessed(abc: Alphabet, space: TextSpace, input: Input, quote: Quote, lines: Option<L.Range>, r: Resolution, c: Candidate)
    returns (a: Candidate)
    requires Searched(abc, space, input, quote, lines, r) && (forall d :: !MayBe(abc, space.text, quote, d))
    requires LinesSilent(abc, space, quote, lines) && Misfit(abc, space.text, quote, c)
    ensures lines.Some? && lines.value.deleted ==> r.Lost?
    ensures !(lines.Some? && lines.value.deleted) ==>
              && SaysAt(r, Moved, a, false)
              && BestGuess(space, Misfits(abc, space.text, quote), a, if input.lineStart.Some? then LineHint(input, lines) else None)
  {
    var found := Decided(abc, space, input, quote, lines, r);
    NoneMeant(abc, space, quote, found);
    DecideSilent(abc, space, input, quote, lines, found);
    assert c in Misfits(abc, space.text, quote);
    assert c in Among(found.conflicting);
    a := GuessMade(space, input, lines, found);
  }

  lemma GuessMade(space: TextSpace, input: Input, lines: Option<L.Range>, found: Evidence) returns (a: Candidate)
    requires found.eligible == [] && found.conflicting != [] && InOrder(found.conflicting)
    ensures var r := ResolveByQuoteAlone(space, input, found, lines);
            if lines.Some? && lines.value.deleted then r.Lost?
            else && SaysAt(r, Moved, a, false)
                 && BestGuess(space, Among(found.conflicting), a, if input.lineStart.Some? then LineHint(input, lines) else None)
  {
    var line := if input.lineStart.Some? then LineHint(input, lines) else None;
    GuessMeaning(space, found.conflicting, line);
    a := Else(PickNearest(space, found.conflicting, line), Head(found.conflicting)).value;
  }

  lemma HeadAmong(cands: seq<Candidate>)
    ensures cands != [] ==> cands[0] in Among(cands)
  {
  }

  lemma NoneMeant(abc: Alphabet, space: TextSpace, quote: Quote, found: Evidence)
    requires BroughtUp(abc, space, quote, found) && forall d :: !MayBe(abc, space.text, quote, d)
    ensures found.eligible == [] && NoneCertain(abc, space.text, quote)
  {
    HeadAmong(found.eligible);
    forall c ensures !Certain(abc, space.text, quote, c) {
      FoundMeaning(abc, space.text, quote, c);
    }
  }

  // --- Parts of a quote that is gone -----------------------------------------------------------------

  ghost predicate Occurs(norm: string, part: string) {
    exists i :: MatchesAt(norm, part, i)
  }

  lemma OccursListed(hay: Normalized, part: string)
    requires |hay.norm| == |hay.origin| && part != ""
    ensures FindAll(hay, part, false) != [] <==> Occurs(hay.norm, part)
  {
    if i :| MatchesAt(hay.norm, part, i) {
      assert i in Occurrences(hay.norm, part, 0);
    }
    if Occurrences(hay.norm, part, 0) != [] {
      assert Occurrences(hay.norm, part, 0)[0] in Occurrences(hay.norm, part, 0);
    }
  }

  /** Of several places of a part it is the one its context singles out, or a nearest to the line, or the first. */
  ghost predicate PartAt(abc: Alphabet, space: TextSpace, quote: Quote, line: Option<int>, cands: seq<Candidate>, c: Candidate) {
    && c in cands
    && if |cands| == 1 then true
       else if exists d :: d in cands && SingledOut(Scorer(abc, space.text, quote), cands, d)
       then SingledOut(Scorer(abc, space.text, quote), cands, c)
       else if line.Some? && exists d :: d in cands && Known(space, d) then Nearest(space, Among(cands), c, line.value)
       else c == cands[0]
  }

  lemma PartMeaning(abc: Alphabet, space: TextSpace, quote: Quote, line: Option<int>, cands: seq<Candidate>)
    ensures var c := PickPart(abc, space, quote, line, cands);
            (c.Some? <==> cands != []) && (c.Some? ==> PartAt(abc, space, quote, line, cands, c.value))
  {
    if line.Some? {
      NearestMeaning(space, cands, line.value);
    }
  }

  /** What the two parts of a quote say: from the first to the last if they come in order and not too far apart, and else one of them. */
  function Spanned(text: string, quote: Quote, a: Option<Candidate>, b: Option<Candidate>): Option<(int, int)> {
    if && a.Some? && b.Some? && a.value.end <= b.value.start
       && b.value.start - a.value.end <= 2 * |quote.exact| && b.value.end - a.value.start <= |text|
    then Some((a.value.start, b.value.end))
    else if a.Some? then Some((a.value.start, a.value.end))
    else if b.Some? then Some((b.value.start, b.value.end))
    else None
  }

  /** The first and the last 32 characters of a longer quote, in the loose normal form. */
  predicate EndsOf(needle: string, first: string, last: string) {
    |needle| > 32 && first == needle[..32] && last == needle[|needle| - 32..]
  }

  lemma PartsAre(abc: Alphabet, space: TextSpace, quote: Quote, line: Option<int>, hay: Normalized, first: string, last: string)
    requires hay == Normalize(abc, space.text, Loose) && EndsOf(NormalizeNeedle(abc, quote.exact, Loose), first, last)
    ensures var a := PickPart(abc, space, quote, line, FindAll(hay, first, false));
            var b := PickPart(abc, space, quote, line, FindAll(hay, last, false));
            FindPartial(abc, space, quote, line) == Spanned(space.text, quote, a, b)
  {
    var needle := NormalizeNeedle(abc, quote.exact, Loose);
    assert Slice(needle, 0, PARTIAL_CHARS) == first && Slice(needle, -PARTIAL_CHARS, |needle|) == last;
  }

  lemma NothingListed(abc: Alphabet, space: TextSpace, quote: Quote, found: Evidence)
    requires FindQuote(abc, space.text, quote.exact) == [] && BroughtUp(abc, space, quote, found)
    ensures found.eligible == [] && found.conflicting == [] && NoneCertain(abc, space.text, quote)
  {
    NoneMeant(abc, space, quote, found);
    HeadAmong(found.conflicting);
  }

  /** A quote that is gone, with no lines to go by. */
  ghost predicate Gone(abc: Alphabet, space: TextSpace, input: Input, quote: Quote, lines: Option<L.Range>, r: Resolution) {
    && Searched(abc, space, input, quote, lines, r) && FindQuote(abc, space.text, quote.exact) == []
    && (Live(lines) ==> OffsetsIn(space, lines.value).None?)
  }

  lemma GoneDecides(abc: Alphabet, space: TextSpace, input: Input, quote: Quote, lines: Option<L.Range>, r: Resolution, part: Option<(int, int)>)
    requires Gone(abc, space, input, quote, lines, r) && part == FindPartial(abc, space, quote, LineHint(input, lines))
    ensures PartSaid(r, part)
  {
    var found := Decided(abc, space, input, quote, lines, r);
    NothingListed(abc, space, quote, found);
    DecideSilent(abc, space, input, quote, lines, found);
    PartDecides(space, input, lines, found);
  }

  predicate PartSaid(r: Resolution, part: Option<(int, int)>) {
    if part.None? then r.Lost?
    else r.Found? && r.status == Moved && r.how.ByPartial? && !r.ambiguous && (r.start, r.end) == part.value
  }

  lemma PartDecides(space: TextSpace, input: Input, lines: Option<L.Range>, found: Evidence)
    requires found.eligible == [] && found.conflicting == []
    ensures PartSaid(ResolveByQuoteAlone(space, input, found, lines), found.partial)
  {
  }

  /** A quote of at most 32 characters has no parts: once it is gone, and no lines help, it is lost. */
  lemma ShortQuoteLost(abc: Alphabet, space: TextSpace, input: Input, quote: Quote, lines: Option<L.Range>, r: Resolution)
    requires Gone(abc, space, input, quote, lines, r) && |NormalizeNeedle(abc, quote.exact, Loose)| <= 32
    ensures r.Lost?
  {
    GoneDecides(abc, space, input, quote, lines, r, None);
  }

  /**
   * A longer quote that is gone, with no lines to go by, is found by its parts exactly if its first or its last 32
   * characters are still in the text, in the loose normal form; it then spans both if they come in order.
   */
  lemma PartsLeft(abc: Alphabet, space: TextSpace, input: Input, quote: Quote, lines: Option<L.Range>, r: Resolution, first: string, last: string)
    returns (a: Option<Candidate>, b: Option<Candidate>)
    requires Gone(abc, space, input, quote, lines, r) && EndsOf(NormalizeNeedle(abc, quote.exact, Loose), first, last)
    ensures a.Some? <==> Occurs(Normalize(abc, space.text, Loose).norm, first)
    ensures b.Some? <==> Occurs(Normalize(abc, space.text, Loose).norm, last)
    ensures a.Some? ==> PartAt(abc, space, quote, LineHint(input, lines), FindAll(Normalize(abc, space.text, Loose), first, false), a.value)
    ensures b.Some? ==> PartAt(abc, space, quote, LineHint(input, lines), FindAll(Normalize(abc, space.text, Loose), last, false), b.value)
    ensures r.Lost? <==> a.None? && b.None?
    ensures r.Found? ==> r.status == Moved && r.how.ByPartial? && !r.ambiguous && Some((r.start, r.end)) == Spanned(space.text, quote, a, b)
  {
    var hay, line := Normalize(abc, space.text, Loose), LineHint(input, lines);
    var heads, tails := FindAll(hay, first, false), FindAll(hay, last, false);
    OccursListed(hay, first);
    OccursListed(hay, last);
    PartMeaning(abc, space, quote, line, heads);
    PartMeaning(abc, space, quote, line, tails);
    a, b := PickPart(abc, space, quote, line, heads), PickPart(abc, space, quote, line, tails);
    PartsAre(abc, space, quote, line, hay, first, last);
    GoneDecides(abc, space, input, quote, lines, r, Spanned(space.text, quote, a, b));
  }

  // --- Views whose lines are not the file's -----------------------------------------------------------

  /** The quote that stands for what a resolution covers in the source. */
  ghost predicate Carries(source: TextSpace, inSource: Resolution, carried: Option<Quote>) {
    carried == if inSource.Found? && 0 <= inSource.start <= inSource.end <= |source.text|
               then CaptureQuote(source.text, inSource.start, inSource.end) else None
  }

  predicate SaysForSure(r: Resolution) {
    r.Found? && r.status.Anchored? && !r.ambiguous
  }

  /**
   * A comment in such a view: a sure match in the view stands, and without lines whatever is found there does. Else the
   * text it covers in the source is looked for in the view, and reported with the lines of the source.
   */
  lemma ViewOutcome(abc: Alphabet, view: TextSpace, source: TextSpace, input: Input, direct: Resolution, inSource: Resolution,
                    carried: Option<Quote>, inView: Resolution, r: Resolution)
    requires r == ResolveAnchorInView(abc, view, source, input) && inSource == ResolveAnchor(abc, source, input)
    requires direct == if input.quote.Some? && !AllBlank(input.quote.value.exact)
                       then ResolveAnchor(abc, view, Input(input.quote, None, None, input.stale, None)) else Lost
    requires Carries(source, inSource, carried) && inView == ResolveAnchor(abc, view, Input(carried, None, None, false, None))
    ensures input.lineStart.None? || SaysForSure(direct) ==> r == direct
    ensures inSource.Lost? || inView.Lost? ==> r == direct
    ensures input.lineStart.Some? && !SaysForSure(direct) && inSource.Found? && inView.Found? ==>
              && r.Found? && r.start == inView.start && r.end == inView.end && r.how == inSource.how && !r.ambiguous
              && r.lineStart == inSource.lineStart && r.lineEnd == inSource.lineEnd
              && (r.status.Anchored? <==> inSource.status.Anchored? && inView.status.Anchored?)
  {
    UsableMeaning(input);
  }
}
