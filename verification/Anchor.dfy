/**
 * Resolving a comment anchor against the current text
 * (live/src/lib/comment-anchor.ts, `findPartial`, "Resolution" and `captureQuote`).
 */
module Anchor {
  import opened Wrappers
  import opened Text
  import opened Sorting
  import opened Normalization
  import opened Candidates
  import opened Context
  import opened OwnContext
  import opened TextSpaces
  import L = LineRemap

  datatype Input = Input(quote: Option<Quote>, lineStart: Option<int>, lineEnd: Option<int>, stale: bool,
                         changes: Option<seq<L.Change>>)

  datatype Status = Anchored | Moved
  datatype Method = ByQuote | ByLines | ByPartial

  /** Where an anchor is now. `Lost` has no range. */
  datatype Resolution =
    | Lost
    | Found(status: Status, how: Method, start: int, end: int, lineStart: Option<int>, lineEnd: Option<int>, ambiguous: bool)

  // --- The parts -------------------------------------------------------------------

  /** A quote that is nothing but blanks does not count. */
  function UsableQuote(input: Input): Option<Quote> {
    if input.quote.Some? && Trim(input.quote.value.exact) != "" then input.quote else None
  }

  /** Lines that can be trusted in the current version. */
  function TrustedLines(input: Input): Option<L.Range> {
    if input.lineStart.None? || input.lineStart.value <= 0 then None
    else
      var start := input.lineStart.value;
      var end := Max(start, input.lineEnd.GetOr(start));
      if !input.stale then Some(L.Range(start, end, false, false))
      else if input.changes.Some? && L.HasLineNumbers(input.changes.value)
      then Some(L.RemapLineRange(input.changes.value, start, end))
      else None
  }

  function WithLines(space: TextSpace, status: Status, how: Method, start: int, end: int, ambiguous: bool): Resolution {
    match space.toLine
    case None => Found(status, how, start, end, None, None, ambiguous)
    case Some(lineOf) => Found(status, how, start, end, lineOf(start), lineOf(Max(start, end - 1)), ambiguous)
  }

  function PickNearest(space: TextSpace, cands: seq<Candidate>, line: Option<int>): (r: Option<Candidate>)
    ensures r.Some? ==> r.value in cands
  {
    if space.toLine.None? || line.None? then None else NearestOf(space.toLine.value, cands, line.value)
  }

  predicate OverlapsLines(space: TextSpace, c: Candidate, lines: L.Range) {
    && space.toLine.Some?
    && var a, b := space.toLine.value(c.start), space.toLine.value(Max(c.start, c.end - 1));
       a.Some? && b.Some? && a.value <= lines.lineEnd && b.value >= lines.lineStart
  }

  /** Occurrences whose saved context disagrees; none when there is no saved context. */
  function Conflicting(abc: Alphabet, text: string, quote: Quote): seq<Candidate> {
    if HasContext(quote) then Filter(FindQuote(abc, text, quote.exact), Disagreeing(abc, text, quote)) else []
  }

  function Disagreeing(abc: Alphabet, text: string, quote: Quote): Candidate -> bool {
    (c: Candidate) => Conflicts(abc, text, c, quote)
  }

  function Agreeing(abc: Alphabet, text: string, quote: Quote): Candidate -> bool {
    (c: Candidate) => !Conflicts(abc, text, c, quote)
  }

  /** Occurrences that may be the quoted one; without context, strict ones beat loose ones. */
  function Eligible(abc: Alphabet, text: string, quote: Quote): seq<Candidate> {
    EligibleOf(FindQuote(abc, text, quote.exact), HasContext(quote), Agreeing(abc, text, quote))
  }

  function EligibleOf(all: seq<Candidate>, hasContext: bool, agrees: Candidate -> bool): seq<Candidate> {
    if hasContext then Filter(all, agrees)
    else
      var strict := Filter(all, IsStrict);
      if strict != [] then strict else all
  }

  predicate IsStrict(c: Candidate) {
    c.strict
  }

  function PickEligible(abc: Alphabet, text: string, quote: Quote): (r: Option<Candidate>)
    ensures r.Some? ==> r.value in Eligible(abc, text, quote)
  {
    var cands := Eligible(abc, text, quote);
    if |cands| == 1 then Some(cands[0]) else PickByContext(abc, text, cands, quote)
  }

  function FirstWhere(cands: seq<Candidate>, p: Candidate -> bool): (r: Option<Candidate>)
    ensures r.Some? ==> r.value in cands && p(r.value)
    ensures r.None? ==> forall c | c in cands :: !p(c)
  {
    if cands == [] then None
    else if p(cands[0]) then Some(cands[0])
    else FirstWhere(cands[1..], p)
  }

  function Else<T>(a: Option<T>, b: Option<T>): Option<T> {
    if a.Some? then a else b
  }

  function Head<T>(s: seq<T>): (r: Option<T>)
    ensures r.Some? <==> s != []
    ensures r.Some? ==> r.value in s
  {
    if s == [] then None else Some(s[0])
  }

  const PARTIAL_CHARS := 32

  function PickPart(abc: Alphabet, space: TextSpace, quote: Quote, hint: Option<int>, cands: seq<Candidate>): (r: Option<Candidate>)
    ensures r.Some? ==> r.value in cands
  {
    if |cands| == 1 then Some(cands[0])
    else Else(PickByContext(abc, space.text, cands, quote), Else(PickNearest(space, cands, hint), Head(cands)))
  }

  /** The first and last characters of a quote that is gone; both in order span a range. */
  function FindPartial(abc: Alphabet, space: TextSpace, quote: Quote, hint: Option<int>): Option<(int, int)> {
    var needle := NormalizeNeedle(abc, quote.exact, Loose);
    if |needle| <= PARTIAL_CHARS then None
    else
      var hay := Normalize(abc, space.text, Loose);
      var head := PickPart(abc, space, quote, hint, FindAll(hay, Slice(needle, 0, PARTIAL_CHARS), false));
      var tail := PickPart(abc, space, quote, hint, FindAll(hay, Slice(needle, -PARTIAL_CHARS, |needle|), false));
      if && head.Some? && tail.Some? && tail.value.start >= head.value.end
         && tail.value.end - head.value.start <= |space.text|
         && tail.value.start - head.value.end <= |quote.exact| * 2
      then Some((head.value.start, tail.value.end))
      else match Else(head, tail) case Some(c) => Some((c.start, c.end)) case None => None
  }

  // --- The four stages ---------------------------------------------------------------

  /** What searching the text for a quote brings up. */
  datatype Evidence = Evidence(eligible: seq<Candidate>, conflicting: seq<Candidate>, picked: Option<Candidate>,
                               partial: Option<(int, int)>)

  /** The line that settles ties, when one is known. */
  function Hint(input: Input, lines: Option<L.Range>): Option<int> {
    if lines.Some? then Some(lines.value.lineStart) else input.lineStart
  }

  function Search(abc: Alphabet, space: TextSpace, quote: Quote, hint: Option<int>): Evidence {
    Evidence(Eligible(abc, space.text, quote), Conflicting(abc, space.text, quote), PickEligible(abc, space.text, quote),
             FindPartial(abc, space, quote, hint))
  }

  function ByLineRange(space: TextSpace, lines: L.Range): Option<Resolution> {
    if space.toOffsets.None? then None
    else match space.toOffsets.value(lines.lineStart, lines.lineEnd)
      case None => None
      case Some((s, e)) =>
        Some(Found(if lines.touched then Moved else Anchored, ByLines, s, e, Some(lines.lineStart), Some(lines.lineEnd), false))
  }

  /** Stage 2: lines that were not deleted settle ties, confirm conflicting occurrences, or stand for themselves. */
  function ResolveByLines(space: TextSpace, found: Evidence, lines: L.Range): Option<Resolution> {
    var near := PickNearest(space, found.eligible, Some(lines.lineStart));
    var confirmed := FirstWhere(found.conflicting, (c: Candidate) => OverlapsLines(space, c, lines));
    if near.Some? then Some(WithLines(space, Anchored, ByQuote, near.value.start, near.value.end, false))
    else if confirmed.Some? then Some(WithLines(space, Anchored, ByQuote, confirmed.value.start, confirmed.value.end, false))
    else ByLineRange(space, lines)
  }

  /** Stage 3: an occurrence that could not be singled out, or a part of the quote. */
  function ResolveByQuoteAlone(space: TextSpace, input: Input, found: Evidence, lines: Option<L.Range>): Resolution {
    if found.eligible != [] then
      var c := Else(PickNearest(space, found.eligible, input.lineStart), Head(found.eligible)).value;
      WithLines(space, Anchored, ByQuote, c.start, c.end, true)
    else if found.conflicting != [] then
      if lines.Some? && lines.value.deleted then Lost
      else
        var near := if input.lineStart.Some? then PickNearest(space, found.conflicting, Hint(input, lines)) else None;
        var c := Else(near, Head(found.conflicting)).value;
        WithLines(space, Moved, ByQuote, c.start, c.end, false)
    else match found.partial
      case Some((s, e)) => WithLines(space, Moved, ByPartial, s, e, false)
      case None => Lost
  }

  /** A stale comment with lines only, and no diff: the stored lines, flagged as moved. */
  function ResolveUnverified(space: TextSpace, input: Input): Resolution {
    if input.lineStart.None? || input.lineStart.value <= 0 || space.toOffsets.None? then Lost
    else
      var start := input.lineStart.value;
      var end := Max(start, input.lineEnd.GetOr(start));
      match space.toOffsets.value(start, end)
      case None => Lost
      case Some((s, e)) => Found(Moved, ByLines, s, e, Some(start), Some(end), false)
  }

  /** The decision, given what a search for the quote (if there is one) brought up. */
  function Decide(space: TextSpace, input: Input, lines: Option<L.Range>, found: Option<Evidence>): Resolution {
    if found.Some? && found.value.picked.Some? then
      var c := found.value.picked.value;
      WithLines(space, Anchored, ByQuote, c.start, c.end, false)
    else
      var byLines :=
        if lines.Some? && !lines.value.deleted
        then ResolveByLines(space, found.GetOr(Evidence([], [], None, None)), lines.value)
        else None;
      if byLines.Some? then byLines.value
      else if found.Some? then ResolveByQuoteAlone(space, input, found.value, lines)
      else if input.stale && lines.None? then ResolveUnverified(space, input)
      else Lost
  }

  function ResolveAnchor(abc: Alphabet, space: TextSpace, input: Input): Resolution {
    var quote, lines := UsableQuote(input), TrustedLines(input);
    var found := if quote.Some? then Some(Search(abc, space, quote.value, Hint(input, lines))) else None;
    Decide(space, input, lines, found)
  }

  // --- Which occurrences are eligible ----------------------------------------------------

  /** With saved context every occurrence is either eligible or conflicting; eligibility needs an occurrence. */
  lemma EligibleMembers(abc: Alphabet, text: string, quote: Quote, c: Candidate)
    ensures HasContext(quote) ==>
              (c in Eligible(abc, text, quote) <==> c in FindQuote(abc, text, quote.exact) && !Conflicts(abc, text, c, quote))
    ensures c in Eligible(abc, text, quote) ==> c in FindQuote(abc, text, quote.exact) && InText(text, c)
    ensures c in Conflicting(abc, text, quote)
            <==> HasContext(quote) && c in FindQuote(abc, text, quote.exact) && Conflicts(abc, text, c, quote)
    ensures c in Conflicting(abc, text, quote) ==> InText(text, c)
  {
    FindQuoteMembers(abc, text, quote.exact, c);
  }

  lemma EligibleOrConflicting(abc: Alphabet, text: string, quote: Quote)
    requires FindQuote(abc, text, quote.exact) != []
    ensures Eligible(abc, text, quote) != [] || Conflicting(abc, text, quote) != []
    ensures !HasContext(quote) ==> Eligible(abc, text, quote) != []
    ensures Eligible(abc, text, quote) == [] <==>
            HasContext(quote) && forall c | c in FindQuote(abc, text, quote.exact) :: Conflicts(abc, text, c, quote)
  {
    var all := FindQuote(abc, text, quote.exact);
    var c := all[0];
    EligibleMembers(abc, text, quote, c);
    if Eligible(abc, text, quote) == [] && HasContext(quote) {
      forall d | d in all ensures Conflicts(abc, text, d, quote) {
        EligibleMembers(abc, text, quote, d);
      }
    }
    if Eligible(abc, text, quote) != [] {
      EligibleMembers(abc, text, quote, Eligible(abc, text, quote)[0]);
    }
  }

  // --- Never lost without reason ------------------------------------------------------------

  lemma DecideLost(space: TextSpace, input: Input, lines: Option<L.Range>, found: Evidence)
    requires found.eligible != [] || found.conflicting != []
    requires found.picked.Some? ==> found.picked.value in found.eligible
    ensures Decide(space, input, lines, Some(found)).Lost?
            <==> found.eligible == [] && lines.Some? && lines.value.deleted
  {
  }

  /**
   * A quote that occurs is lost exactly when every occurrence conflicts with the saved context
   * and the comment's own lines were deleted.
   */
  lemma NoFalseLoss(abc: Alphabet, space: TextSpace, input: Input, quote: Quote)
    requires UsableQuote(input) == Some(quote) && FindQuote(abc, space.text, quote.exact) != []
    ensures ResolveAnchor(abc, space, input).Lost? <==>
            && HasContext(quote)
            && (forall c | c in FindQuote(abc, space.text, quote.exact) :: Conflicts(abc, space.text, c, quote))
            && TrustedLines(input).Some? && TrustedLines(input).value.deleted
  {
    EligibleOrConflicting(abc, space.text, quote);
    var lines := TrustedLines(input);
    DecideLost(space, input, lines, Search(abc, space, quote, Hint(input, lines)));
  }

  /** Some occurrence in either normal form is enough for the quote to be found, unless its lines were deleted. */
  lemma NoFalseLossInText(abc: Alphabet, space: TextSpace, input: Input, quote: Quote, mode: Mode, i: nat)
    requires UsableQuote(input) == Some(quote)
    requires NormalizeNeedle(abc, quote.exact, mode) != ""
    requires MatchesAt(Normalize(abc, space.text, mode).norm, NormalizeNeedle(abc, quote.exact, mode), i)
    requires TrustedLines(input).Some? ==> !TrustedLines(input).value.deleted
    ensures ResolveAnchor(abc, space, input).Found?
  {
    QuoteOccursListed(abc, space.text, quote.exact, mode, i);
    NoFalseLoss(abc, space, input, quote);
  }

  lemma DecideQuoteOnly(space: TextSpace, input: Input, found: Evidence)
    requires input.lineStart == None && (found.eligible != [] || found.conflicting != [])
    requires found.picked.Some? ==> found.picked.value in found.eligible
    ensures var r := Decide(space, input, None, Some(found));
            r.Found? && r.how.ByQuote? && (r.status.Anchored? <==> found.eligible != [])
  {
  }

  /** Without a line range, an occurring quote is anchored exactly when some occurrence does not conflict. */
  lemma QuoteOnlyStatus(abc: Alphabet, space: TextSpace, input: Input, quote: Quote)
    requires UsableQuote(input) == Some(quote) && FindQuote(abc, space.text, quote.exact) != [] && input.lineStart == None
    ensures var r := ResolveAnchor(abc, space, input);
            && r.Found? && r.how.ByQuote?
            && (r.status.Anchored? <==>
                  !HasContext(quote) || exists c :: c in FindQuote(abc, space.text, quote.exact) && !Conflicts(abc, space.text, c, quote))
  {
    EligibleOrConflicting(abc, space.text, quote);
    DecideQuoteOnly(space, input, Search(abc, space, quote, Hint(input, None)));
  }

  ghost predicate AllInText(text: string, cands: seq<Candidate>) {
    forall c | c in cands :: InText(text, c)
  }

  lemma DecideInText(space: TextSpace, input: Input, lines: Option<L.Range>, found: Option<Evidence>)
    requires found.Some? ==>
               && AllInText(space.text, found.value.eligible) && AllInText(space.text, found.value.conflicting)
               && (found.value.picked.Some? ==> found.value.picked.value in found.value.eligible)
               && (found.value.partial.Some? ==> var (s, e) := found.value.partial.value; 0 <= s < e <= |space.text|)
    ensures var r := Decide(space, input, lines, found);
            r.Found? && !r.how.ByLines? ==> 0 <= r.start < r.end <= |space.text|
  {
  }

  /** A range found from the quote, or from part of it, is non-empty and inside the text. */
  lemma QuoteRangeInText(abc: Alphabet, space: TextSpace, input: Input)
    ensures var r := ResolveAnchor(abc, space, input);
            r.Found? && !r.how.ByLines? ==> 0 <= r.start < r.end <= |space.text|
  {
    var quote, lines := UsableQuote(input), TrustedLines(input);
    if quote.Some? {
      var q := quote.value;
      forall c ensures c in Eligible(abc, space.text, q) || c in Conflicting(abc, space.text, q) ==> InText(space.text, c) {
        EligibleMembers(abc, space.text, q, c);
      }
      PartialInText(abc, space, q, Hint(input, lines));
      DecideInText(space, input, lines, Some(Search(abc, space, q, Hint(input, lines))));
    } else {
      DecideInText(space, input, lines, None);
    }
  }

  lemma PartialInText(abc: Alphabet, space: TextSpace, quote: Quote, hint: Option<int>)
    ensures FindPartial(abc, space, quote, hint).Some? ==>
              var (s, e) := FindPartial(abc, space, quote, hint).value; 0 <= s < e <= |space.text|
  {
    var hay, needle := Normalize(abc, space.text, Loose), NormalizeNeedle(abc, quote.exact, Loose);
    var a, b := Slice(needle, 0, PARTIAL_CHARS), Slice(needle, -PARTIAL_CHARS, |needle|);
    forall c | c in FindAll(hay, a, false) ensures InText(space.text, c) {
      FindAllSound(abc, space.text, Loose, a, false, c);
    }
    forall c | c in FindAll(hay, b, false) ensures InText(space.text, c) {
      FindAllSound(abc, space.text, Loose, b, false, c);
    }
  }

  // --- The lines that are reported -----------------------------------------------------------------

  /** The lines of the first and of the last character; none in a space without lines. */
  ghost predicate ReportsLines(space: TextSpace, r: Resolution) {
    r.Found? && !r.how.ByLines? ==>
      match space.toLine
      case None => r.lineStart == None && r.lineEnd == None
      case Some(lineOf) => r.lineStart == lineOf(r.start) && r.lineEnd == lineOf(Max(r.start, r.end - 1))
  }

  lemma DecideReports(space: TextSpace, input: Input, lines: Option<L.Range>, found: Option<Evidence>)
    ensures ReportsLines(space, Decide(space, input, lines, found))
  {
  }

  /** What is found by the quote, or by a part of it, reports the lines it is on. */
  lemma QuoteReportsLines(abc: Alphabet, space: TextSpace, input: Input)
    ensures ReportsLines(space, ResolveAnchor(abc, space, input))
  {
    var quote, lines := UsableQuote(input), TrustedLines(input);
    DecideReports(space, input, lines, if quote.Some? then Some(Search(abc, space, quote.value, Hint(input, lines))) else None);
  }

  /** In plain source text these are the lines counted from the newlines before, in order. */
  lemma SourceLinesReported(abc: Alphabet, text: string, input: Input, r: Resolution)
    requires r == ResolveAnchor(abc, SourceSpace(text), input) && r.Found? && !r.how.ByLines?
    ensures 0 <= r.start < r.end <= |text|
    ensures r.lineStart == Some(LineOf(text, r.start)) && r.lineEnd == Some(LineOf(text, r.end - 1))
    ensures r.lineStart.value <= r.lineEnd.value
  {
    QuoteReportsLines(abc, SourceSpace(text), input);
    QuoteRangeInText(abc, SourceSpace(text), input);
    SourceLines(text, r);
  }

  lemma SourceLines(text: string, r: Resolution)
    requires ReportsLines(SourceSpace(text), r) && r.Found? && !r.how.ByLines? && 0 <= r.start < r.end
    ensures r.lineStart == Some(LineOf(text, r.start)) && r.lineEnd == Some(LineOf(text, r.end - 1))
    ensures LineOf(text, r.start) <= LineOf(text, r.end - 1)
  {
    LineOfMonotone(text, r.start, r.end - 1);
  }

  // --- Conflicting occurrences need confirmation -------------------------------------------------

  predicate Spans(c: Candidate, r: Resolution) {
    r.Found? && c.start == r.start && c.end == r.end
  }

  ghost predicate Confirmed(space: TextSpace, cands: seq<Candidate>, lines: Option<L.Range>, r: Resolution) {
    lines.Some? && !lines.value.deleted && exists c :: c in cands && Spans(c, r) && OverlapsLines(space, c, lines.value)
  }

  lemma DecideConfirmed(space: TextSpace, input: Input, lines: Option<L.Range>, found: Evidence)
    requires found.picked.Some? ==> found.picked.value in found.eligible
    ensures var r := Decide(space, input, lines, Some(found));
            r.Found? && r.how.ByQuote? && r.status.Anchored? ==>
              (exists c :: c in found.eligible && Spans(c, r)) || Confirmed(space, found.conflicting, lines, r)
  {
  }

  /**
   * A quote is anchored at an occurrence whose context conflicts only where trusted lines
   * that were not deleted confirm it.
   */
  lemma ConflictNeedsLines(abc: Alphabet, space: TextSpace, input: Input, quote: Quote)
    requires UsableQuote(input) == Some(quote) && HasContext(quote)
    ensures var r := ResolveAnchor(abc, space, input);
            r.Found? && r.how.ByQuote? && r.status.Anchored? ==>
              || (exists c :: c in FindQuote(abc, space.text, quote.exact) && !Conflicts(abc, space.text, c, quote) && Spans(c, r))
              || Confirmed(space, FindQuote(abc, space.text, quote.exact), TrustedLines(input), r)
  {
    var lines := TrustedLines(input);
    DecideConfirmed(space, input, lines, Search(abc, space, quote, Hint(input, lines)));
    forall c ensures
        && (c in Eligible(abc, space.text, quote) ==>
              c in FindQuote(abc, space.text, quote.exact) && !Conflicts(abc, space.text, c, quote))
        && (c in Conflicting(abc, space.text, quote) ==> c in FindQuote(abc, space.text, quote.exact)) {
      EligibleMembers(abc, space.text, quote, c);
    }
  }

  // --- Comments with lines only ---------------------------------------------------------------------

  /** The lines a comment without a usable quote stands for: remapped if they can be, else as stored and in doubt. */
  function LinesToShow(input: Input): L.Range
    requires input.lineStart.Some?
  {
    var start := input.lineStart.value;
    TrustedLines(input).GetOr(L.Range(start, Max(start, input.lineEnd.GetOr(start)), true, false))
  }

  lemma DecideLinesOnly(space: TextSpace, input: Input)
    requires UsableQuote(input) == None && input.lineStart.Some? && input.lineStart.value >= 1 && space.toOffsets.Some?
    ensures var lines := LinesToShow(input);
            var offsets := space.toOffsets.value(lines.lineStart, lines.lineEnd);
            Decide(space, input, TrustedLines(input), None)
            == if lines.deleted || offsets.None? then Lost
               else Found(if lines.touched then Moved else Anchored, ByLines, offsets.value.0, offsets.value.1,
                          Some(lines.lineStart), Some(lines.lineEnd), false)
  {
  }

  /**
   * In plain source text, a comment without a usable quote is lost exactly when its lines were deleted
   * or lie past the end; otherwise it covers exactly those lines, and is flagged as moved exactly when they were
   * touched or could not be verified.
   */
  lemma LinesOnlyMeaning(abc: Alphabet, text: string, input: Input, k: nat)
    requires UsableQuote(input) == None && input.lineStart.Some? && input.lineStart.value >= 1 && k <= |text|
    ensures var r, lines := ResolveAnchor(abc, SourceSpace(text), input), LinesToShow(input);
            && (r.Lost? <==> lines.deleted || lines.lineStart > LineCount(text))
            && (r.Found? ==>
                  && r.how.ByLines? && (r.status.Moved? <==> lines.touched)
                  && r.lineStart == Some(lines.lineStart) && r.lineEnd == Some(lines.lineEnd)
                  && (r.start <= k <= r.end
                      <==> Max(1, lines.lineStart) <= LineOf(text, k) <= Max(Max(1, lines.lineStart), lines.lineEnd)))
  {
    var lines := LinesToShow(input);
    DecideLinesOnly(SourceSpace(text), input);
    RangeMeaning(text, lines.lineStart, lines.lineEnd, k);
  }

  // --- When the diff is worth fetching ---------------------------------------------------------------

  /** Anything but an unambiguous, context-confirmed quote match. */
  predicate NeedsDiff(r: Resolution) {
    !(r.Found? && r.status.Anchored? && r.how.ByQuote? && !r.ambiguous)
  }

  lemma DecideWithoutDiff(space: TextSpace, input: Input, found: Option<Evidence>)
    requires !NeedsDiff(Decide(space, input, None, found))
    ensures found.Some? && found.value.picked.Some?
  {
  }

  /** When a resolution made without the diff says the diff is not needed, no diff would change it. */
  lemma DiffWouldNotHelp(abc: Alphabet, space: TextSpace, input: Input, changes: Option<seq<L.Change>>)
    requires input.stale && input.changes == None
    requires !NeedsDiff(ResolveAnchor(abc, space, input))
    ensures ResolveAnchor(abc, space, input.(changes := changes)) == ResolveAnchor(abc, space, input)
  {
    var quote := UsableQuote(input);
    var found := if quote.Some? then Some(Search(abc, space, quote.value, Hint(input, None))) else None;
    DecideWithoutDiff(space, input, found);
  }

  // --- Capturing a quote -------------------------------------------------------------------------------

  const QUOTE_EXACT_MAX := 2000
  const QUOTE_CONTEXT_CHARS := 32

  /** The first position from `start` on that is not blank, or `end`. */
  function SkipBlanks(text: string, start: nat, end: nat): (r: nat)
    requires end <= |text|
    ensures start <= r && (start <= end ==> r <= end)
    ensures r < end ==> !IsSpace(text[r])
    decreases |text| - start
  {
    if start < end && IsSpace(text[start]) then SkipBlanks(text, start + 1, end) else start
  }

  /** One past the last position before `end` that is not blank, or `start`. */
  function BackOverBlanks(text: string, start: nat, end: nat): (r: nat)
    requires end <= |text|
    ensures r <= end && (start <= end ==> start <= r)
    ensures start < r ==> !IsSpace(text[r - 1])
  {
    if start < end && IsSpace(text[end - 1]) then BackOverBlanks(text, start, end - 1) else end
  }

  function CaptureQuote(text: string, start: nat, end: nat): Option<Quote>
    requires start <= end <= |text|
  {
    var s := SkipBlanks(text, start, end);
    var e := BackOverBlanks(text, s, end);
    if s >= e then None
    else Some(Quote(text[s..Min(e, s + QUOTE_EXACT_MAX)],
                    text[Max(0, s - QUOTE_CONTEXT_CHARS)..s],
                    text[e..Min(|text|, e + QUOTE_CONTEXT_CHARS)]))
  }

  /** The two trimming loops. */
  method TrimRange(text: string, start: nat, end: nat) returns (s: nat, e: nat)
    requires start <= end <= |text|
    ensures s == SkipBlanks(text, start, end) && e == BackOverBlanks(text, s, end)
  {
    s, e := start, end;
    while s < e && IsSpace(text[s])
      invariant s <= e && SkipBlanks(text, s, e) == SkipBlanks(text, start, end)
    {
      s := s + 1;
    }
    while e > s && IsSpace(text[e - 1])
      invariant s <= e <= |text| && BackOverBlanks(text, s, e) == BackOverBlanks(text, s, end)
    {
      e := e - 1;
    }
  }

  method CaptureQuoteLoop(text: string, start: nat, end: nat) returns (r: Option<Quote>)
    requires start <= end <= |text|
    ensures r == CaptureQuote(text, start, end)
  {
    var s, e := TrimRange(text, start, end);
    if s >= e {
      return None;
    }
    SliceClamped(text, Max(0, s - QUOTE_CONTEXT_CHARS), s);
    SliceClamped(text, e, e + QUOTE_CONTEXT_CHARS);
    return Some(Quote(text[s..Min(e, s + QUOTE_EXACT_MAX)],
                      Slice(text, Max(0, s - QUOTE_CONTEXT_CHARS), s),
                      Slice(text, e, e + QUOTE_CONTEXT_CHARS)));
  }

  /** Nothing but blanks is trimmed off, and a selection yields no quote exactly when it is all blank. */
  lemma {:induction false} CaptureTrims(text: string, start: nat, end: nat)
    requires start <= end <= |text|
    ensures CaptureQuote(text, start, end) == None <==> AllBlank(text[start..end])
  {
    var s := SkipBlanks(text, start, end);
    SkippedBlank(text, start, end);
    if s < end {
      assert text[start..end][s - start] == text[s];
      BackStops(text, s, end, s);
    } else {
      assert text[start..s] == text[start..end];
    }
  }

  lemma {:induction false} SkippedBlank(text: string, start: nat, end: nat)
    requires start <= end <= |text|
    ensures AllBlank(text[start..SkipBlanks(text, start, end)])
    decreases |text| - start
  {
    if start < end && IsSpace(text[start]) {
      SkippedBlank(text, start + 1, end);
      assert text[start..SkipBlanks(text, start, end)] == [text[start]] + text[start + 1..SkipBlanks(text, start, end)];
    }
  }

  /** Trimming from the end stops before a character that is not blank. */
  lemma {:induction false} BackStops(text: string, start: nat, end: nat, k: nat)
    requires start <= k < end <= |text| && !IsSpace(text[k])
    ensures k < BackOverBlanks(text, start, end)
  {
    if IsSpace(text[end - 1]) {
      BackStops(text, start, end - 1, k);
    }
  }

  // --- Capture, then resolve ------------------------------------------------------------------------------

  /** The strict normal form of a slice that starts and ends with non-blanks does so too. */
  lemma NormEnds(abc: Alphabet, slice: string)
    requires slice != "" && !IsSpace(slice[0]) && !IsSpace(slice[|slice| - 1])
    ensures var norm := Normalize(abc, slice, Strict).norm;
            norm != "" && norm[0] == slice[0] && norm[|norm| - 1] == slice[|slice| - 1]
  {
    var n := |slice|;
    UpToStep(abc, slice, Strict, n);
    UpToStep(abc, slice, Strict, 1);
    UpToPrefix(abc, slice, Strict, 1, n);
    assert NormalizeUpTo(abc, slice, Strict, 0).norm == "";
    assert NormalizeUpTo(abc, slice, Strict, 1).norm[0] == slice[0];
  }

  /** So trimming it changes nothing. */
  lemma NeedleOfSlice(abc: Alphabet, text: string, s: nat, e: nat)
    requires s < e <= |text| && !IsSpace(text[s]) && !IsSpace(text[e - 1])
    ensures NormalizeNeedle(abc, text[s..e], Strict) == Normalize(abc, text[s..e], Strict).norm != ""
  {
    NormEnds(abc, text[s..e]);
  }

  /** Blanks add only blanks to the normal form. */
  lemma {:induction false} BlanksNormalize(abc: Alphabet, text: string, m: nat, n: nat)
    requires m <= n <= |text| && AllBlank(text[m..n])
    ensures NormalizeUpTo(abc, text, Strict, m).norm <= NormalizeUpTo(abc, text, Strict, n).norm
    ensures AllBlank(NormalizeUpTo(abc, text, Strict, n).norm[Width(abc, text, Strict, m)..])
    decreases n
  {
    if m < n {
      assert text[m..n - 1] == text[m..n][..n - 1 - m] && IsSpace(text[m..n][n - 1 - m]);
      BlanksNormalize(abc, text, m, n - 1);
      UpToStep(abc, text, Strict, n);
      var before, w := NormalizeUpTo(abc, text, Strict, n - 1).norm, Width(abc, text, Strict, m);
      assert (before + Emit(abc, text, Strict, n - 1))[w..] == before[w..] + Emit(abc, text, Strict, n - 1);
    }
  }

  lemma {:induction false} TrimAround(x: string, m: string, y: string)
    requires AllBlank(x) && AllBlank(y) && m != "" && !IsSpace(m[0]) && !IsSpace(m[|m| - 1])
    ensures Trim(x + m + y) == m
    decreases |x| + |y|
  {
    if x != "" {
      assert (x + m + y)[1..] == x[1..] + m + y;
      TrimAround(x[1..], m, y);
    } else {
      assert x + m + y == m + y;
      TrimEndAround(m, y);
    }
  }

  lemma {:induction false} TrimEndAround(m: string, y: string)
    requires AllBlank(y) && m != "" && !IsSpace(m[|m| - 1])
    ensures TrimEnd(m + y) == m
    decreases |y|
  {
    if y == "" {
      assert m + y == m;
    } else {
      assert (m + y)[..|m + y| - 1] == m + y[..|y| - 1];
      TrimEndAround(m, y[..|y| - 1]);
    }
  }

  /** The normal form of a text is blanks, the normal form of what its outer blanks enclose, and blanks. */
  lemma NormParts(abc: Alphabet, slice: string, i: nat, j: nat) returns (x: string, y: string)
    requires i < j <= |slice| && !IsSpace(slice[i]) && AllBlank(slice[..i]) && AllBlank(slice[j..])
    ensures AllBlank(x) && AllBlank(y)
    ensures Normalize(abc, slice, Strict).norm == x + Normalize(abc, slice[i..j], Strict).norm + y
  {
    var lo, hi, norm := Width(abc, slice, Strict, i), Width(abc, slice, Strict, j), Normalize(abc, slice, Strict).norm;
    NormalizeSlice(abc, slice, Strict, i, j);
    BlankHead(abc, slice, i);
    BlankTail(abc, slice, j);
    x, y := norm[..lo], norm[hi..];
    ThreeParts(norm, lo, hi, Normalize(abc, slice[i..j], Strict).norm);
  }

  lemma ThreeParts(s: string, lo: nat, hi: nat, middle: string)
    requires lo <= hi <= |s| && s[lo..hi] == middle
    ensures s == s[..lo] + middle + s[hi..]
  {
  }

  lemma BlankHead(abc: Alphabet, slice: string, i: nat)
    requires i <= |slice| && AllBlank(slice[..i])
    ensures Width(abc, slice, Strict, i) <= |Normalize(abc, slice, Strict).norm|
    ensures AllBlank(Normalize(abc, slice, Strict).norm[..Width(abc, slice, Strict, i)])
  {
    assert slice[0..i] == slice[..i];
    BlanksNormalize(abc, slice, 0, i);
    UpToPrefix(abc, slice, Strict, i, |slice|);
    var head := NormalizeUpTo(abc, slice, Strict, i).norm;
    assert Normalize(abc, slice, Strict).norm[..|head|] == head == head[0..];
  }

  lemma BlankTail(abc: Alphabet, slice: string, j: nat)
    requires j <= |slice| && AllBlank(slice[j..])
    ensures Width(abc, slice, Strict, j) <= |Normalize(abc, slice, Strict).norm|
    ensures AllBlank(Normalize(abc, slice, Strict).norm[Width(abc, slice, Strict, j)..])
  {
    assert slice[j..|slice|] == slice[j..];
    BlanksNormalize(abc, slice, j, |slice|);
  }

  lemma NeedleOfBlanked(abc: Alphabet, slice: string, i: nat, j: nat)
    requires i < j <= |slice| && !IsSpace(slice[i]) && !IsSpace(slice[j - 1])
    requires AllBlank(slice[..i]) && AllBlank(slice[j..])
    ensures NormalizeNeedle(abc, slice, Strict) == NormalizeNeedle(abc, slice[i..j], Strict)
  {
    var x, y := NormParts(abc, slice, i, j);
    var inner := slice[i..j];
    assert inner[0] == slice[i] && inner[|inner| - 1] == slice[j - 1];
    NormEnds(abc, inner);
    TrimAround(x, Normalize(abc, inner, Strict).norm, y);
    TrimAround("", Normalize(abc, inner, Strict).norm, "");
    assert "" + Normalize(abc, inner, Strict).norm + "" == Normalize(abc, inner, Strict).norm;
  }

  /** Blanks around a quote do not change what is searched for. */
  lemma NeedleTrims(abc: Alphabet, text: string, a: nat, b: nat, s: nat, e: nat)
    requires a <= s < e <= b <= |text| && !IsSpace(text[s]) && !IsSpace(text[e - 1])
    requires AllBlank(text[a..s]) && AllBlank(text[e..b])
    ensures NormalizeNeedle(abc, text[a..b], Strict) == NormalizeNeedle(abc, text[s..e], Strict)
  {
    BlankedSlice(text, a, b, s, e);
    NeedleOfBlanked(abc, text[a..b], s - a, e - a);
  }

  lemma BlankedSlice(text: string, a: nat, b: nat, s: nat, e: nat)
    requires a <= s < e <= b <= |text|
    ensures text[a..b][..s - a] == text[a..s] && text[a..b][s - a..e - a] == text[s..e] && text[a..b][e - a..] == text[e..b]
    ensures text[a..b][s - a] == text[s] && text[a..b][e - 1 - a] == text[e - 1]
  {
    SliceOfSlice(text, a, b, s - a, e - a);
    SliceOfSlice(text, a, b, 0, s - a);
    SliceOfSlice(text, a, b, e - a, e - a);
  }

  /** The place of a slice among the first 500 strict occurrences of its own normal form. */
  ghost predicate WithinCap(abc: Alphabet, text: string, s: nat, e: nat)
    requires s <= e <= |text|
  {
    Width(abc, text, Strict, s) in Hits(Normalize(abc, text, Strict), NormalizeNeedle(abc, text[s..e], Strict))
  }

  lemma OwnPlaceListed(abc: Alphabet, text: string, needle: string, s: nat, e: nat)
    requires s < e <= |text| && !IsSpace(text[s]) && !IsSpace(text[e - 1]) && WithinCap(abc, text, s, e)
    requires NormalizeNeedle(abc, needle, Strict) == NormalizeNeedle(abc, text[s..e], Strict)
    ensures Candidate(s, e, true) in Find(abc, text, needle, Strict)
    ensures Candidate(s, e, true) in FindQuote(abc, text, needle)
    ensures multiset(FindQuote(abc, text, needle))[Candidate(s, e, true)] == 1
  {
    NeedleOfSlice(abc, text, s, e);
    FindAllComplete(abc, text, Strict, NormalizeNeedle(abc, text[s..e], Strict), true, s, e);
    FindQuoteMembers(abc, text, needle, Candidate(s, e, true));
    ListedOnce(abc, text, needle, Candidate(s, e, true));
  }

  /** It is listed exactly when it is within the cap. */
  lemma OwnPlaceCapped(abc: Alphabet, text: string, needle: string, s: nat, e: nat)
    requires s < e <= |text| && !IsSpace(text[s]) && !IsSpace(text[e - 1])
    requires NormalizeNeedle(abc, needle, Strict) == NormalizeNeedle(abc, text[s..e], Strict)
    ensures Candidate(s, e, true) in FindQuote(abc, text, needle) <==> WithinCap(abc, text, s, e)
  {
    if WithinCap(abc, text, s, e) {
      OwnPlaceListed(abc, text, needle, s, e);
    } else if Candidate(s, e, true) in FindQuote(abc, text, needle) {
      FindQuoteMembers(abc, text, needle, Candidate(s, e, true));
      ListedIsCapped(abc, text, NormalizeNeedle(abc, text[s..e], Strict), s, e);
    }
  }

  /** A candidate that starts with a character that is not blank comes from the hit at that character. */
  lemma ListedIsCapped(abc: Alphabet, text: string, needle: string, s: nat, e: nat)
    requires s < |text| && !IsSpace(text[s])
    requires Candidate(s, e, true) in FindAll(Normalize(abc, text, Strict), needle, true)
    ensures Width(abc, text, Strict, s) in Hits(Normalize(abc, text, Strict), needle)
  {
    var i := CandidateIndex(Normalize(abc, text, Strict), needle, true, Candidate(s, e, true));
    OriginStretch(abc, text, Strict, s, i);
    UpToStep(abc, text, Strict, s + 1);
  }

  /** At most 500 occurrences keep every place within the cap. */
  lemma {:induction false} FewOccurrences(abc: Alphabet, text: string, s: nat, e: nat)
    requires s < e <= |text| && !IsSpace(text[s]) && !IsSpace(text[e - 1])
    requires |Occurrences(Normalize(abc, text, Strict).norm, NormalizeNeedle(abc, text[s..e], Strict), 0)| <= MAX_CANDIDATES
    ensures WithinCap(abc, text, s, e)
  {
    NeedleOfSlice(abc, text, s, e);
    NormalizeSlice(abc, text, Strict, s, e);
    HitsComplete(Normalize(abc, text, Strict), NormalizeNeedle(abc, text[s..e], Strict), Width(abc, text, Strict, s));
  }

  /** Strict occurrences are listed once each. */
  lemma {:induction false} ListedOnce(abc: Alphabet, text: string, needle: string, c: Candidate)
    requires c in Find(abc, text, needle, Strict)
    ensures multiset(FindQuote(abc, text, needle))[c] == 1
  {
    var strict := Find(abc, text, needle, Strict);
    var loose := Filter(Find(abc, text, needle, Loose), (d: Candidate) => Clear(strict, d));
    FindAllSound(abc, text, Strict, NormalizeNeedle(abc, needle, Strict), true, c);
    forall j, k | 0 <= j < k < |strict| ensures strict[j].start != strict[k].start {
      FindAllOrdered(abc, text, Strict, NormalizeNeedle(abc, needle, Strict), true, j, k);
    }
    OnceEach(strict, c);
    if c in loose {
      FindAllSound(abc, text, Loose, NormalizeNeedle(abc, needle, Loose), false, c);
    }
    assert c !in multiset(loose);
    assert multiset(strict + loose) == multiset(strict) + multiset(loose);
  }

  lemma {:induction false} FilterCount<T>(s: seq<T>, keep: T -> bool, x: T)
    ensures multiset(Filter(s, keep))[x] == if keep(x) then multiset(s)[x] else 0
  {
    if s != [] {
      assert s == [s[0]] + s[1..];
      FilterCount(s[1..], keep, x);
    }
  }

  /** Another candidate that the context fits just as well: a strict one, or any one if no context speaks for either. */
  predicate RivalIn(score: Candidate -> nat, cands: seq<Candidate>, own: Candidate, c: Candidate) {
    c in cands && c != own && score(c) == score(own) && (c.strict || score(own) == 0)
  }

  /** Some other eligible occurrence fits the saved context as well as the one at [s, e). */
  ghost predicate HasRival(abc: Alphabet, text: string, quote: Quote, s: nat, e: nat) {
    exists c :: RivalIn(Scorer(abc, text, quote), Eligible(abc, text, quote), Candidate(s, e, true), c)
  }

  /**
   * [s, e) is where the quote was taken from this text, with `n` characters of context: what is left of
   * the quoted stretch [a, b) when blanks at its ends are trimmed.
   */
  ghost predicate CapturedFrom(abc: Alphabet, text: string, quote: Quote, a: nat, b: nat, s: nat, e: nat, n: nat) {
    && TakenAround(text, quote, a, b, s, e, n)
    && PrefixRests(text, a, s, n) && SuffixReaches(text, b, e, n)
    && !IsSpace(text[s]) && !IsSpace(text[e - 1])
    && WithinCap(abc, text, s, e)
  }

  ghost predicate Captured(abc: Alphabet, text: string, quote: Quote, s: nat, e: nat, n: nat) {
    MarksDropped(abc) && exists a: nat, b: nat :: CapturedFrom(abc, text, quote, a, b, s, e, n)
  }

  /** On unchanged text the place a quote was taken from is eligible, listed once, and fits its context in full. */
  lemma OwnPlaceEligible(abc: Alphabet, text: string, quote: Quote, s: nat, e: nat, n: nat)
    requires Captured(abc, text, quote, s, e, n)
    ensures var own := Candidate(s, e, true);
            && multiset(Eligible(abc, text, quote))[own] == 1
            && own in Eligible(abc, text, quote)
            && own !in Conflicting(abc, text, quote)
            && Score(abc, text, own, quote) == FullScore(abc, quote)
  {
    var own := Candidate(s, e, true);
    var a: nat, b: nat :| CapturedFrom(abc, text, quote, a, b, s, e, n);
    NeedleTrims(abc, text, a, b, s, e);
    OwnPlaceListed(abc, text, quote.exact, s, e);
    OwnPlaceAgrees(abc, text, quote, a, b, own, n);
    ListedEligible(abc, text, quote, own);
  }

  /** A strict occurrence listed once is eligible, once, unless it conflicts. */
  lemma ListedEligible(abc: Alphabet, text: string, quote: Quote, own: Candidate)
    requires own.strict && multiset(FindQuote(abc, text, quote.exact))[own] == 1
    ensures multiset(Eligible(abc, text, quote))[own] == if Conflicts(abc, text, own, quote) then 0 else 1
    ensures own in Eligible(abc, text, quote) <==> !Conflicts(abc, text, own, quote)
    ensures own in Conflicting(abc, text, quote) <==> Conflicts(abc, text, own, quote)
  {
    var all := FindQuote(abc, text, quote.exact);
    NoContextAgrees(abc, text, own, quote);
    assert own in multiset(all);
    FilterOnce(all, Disagreeing(abc, text, quote), own);
    EligibleOnce(all, HasContext(quote), Agreeing(abc, text, quote), own);
  }

  lemma NoContextAgrees(abc: Alphabet, text: string, c: Candidate, quote: Quote)
    ensures Conflicts(abc, text, c, quote) ==> HasContext(quote)
  {
  }

  lemma FilterOnce<T>(s: seq<T>, keep: T -> bool, x: T)
    requires multiset(s)[x] == 1
    ensures multiset(Filter(s, keep))[x] == if keep(x) then 1 else 0
    ensures x in Filter(s, keep) <==> keep(x)
  {
    FilterCount(s, keep, x);
    assert x in multiset(Filter(s, keep)) <==> x in Filter(s, keep);
  }

  lemma EligibleOnce(all: seq<Candidate>, hasContext: bool, agrees: Candidate -> bool, own: Candidate)
    requires own.strict && multiset(all)[own] == 1 && (hasContext || agrees(own))
    ensures multiset(EligibleOf(all, hasContext, agrees))[own] == if agrees(own) then 1 else 0
    ensures own in EligibleOf(all, hasContext, agrees) <==> agrees(own)
  {
    if hasContext {
      FilterOnce(all, agrees, own);
    } else {
      FilterOnce(all, IsStrict, own);
    }
  }

  lemma {:induction false} OnlyOne(cands: seq<Candidate>, own: Candidate)
    requires multiset(cands)[own] == 1
    ensures |cands| == 1 <==> forall c | c in cands :: c == own
    ensures |cands| == 1 ==> cands == [own]
  {
    assert own in multiset(cands);
    if |cands| == 1 {
      assert cands == [cands[0]];
    } else {
      assert cands == [cands[0]] + [cands[1]] + cands[2..];
      assert cands[0] in cands && cands[1] in cands;
    }
  }

  /** The place is picked exactly when it has no rival; otherwise nothing is. */
  lemma OwnPlacePicked(abc: Alphabet, text: string, quote: Quote, s: nat, e: nat, n: nat)
    requires Captured(abc, text, quote, s, e, n)
    ensures PickEligible(abc, text, quote) == if HasRival(abc, text, quote, s, e) then None else Some(Candidate(s, e, true))
  {
    var own, cands := Candidate(s, e, true), Eligible(abc, text, quote);
    OwnPlaceEligible(abc, text, quote, s, e, n);
    forall c ensures Scorer(abc, text, quote)(c) <= Scorer(abc, text, quote)(own) {
      ScoreAtMostFull(abc, text, c, quote);
    }
    PickAgainstFull(Scorer(abc, text, quote), cands, own);
  }

  lemma PickAgainstFull(score: Candidate -> nat, cands: seq<Candidate>, own: Candidate)
    requires own in cands && multiset(cands)[own] == 1 && own.strict
    requires forall c | c in cands :: score(c) <= score(own)
    ensures (if |cands| == 1 then Some(cands[0]) else PickBest(score, cands))
            == if exists c :: RivalIn(score, cands, own, c) then None else Some(own)
  {
    OnlyOne(cands, own);
    if |cands| != 1 {
      if exists c :: RivalIn(score, cands, own, c) {
        var d :| RivalIn(score, cands, own, d);
        forall c | c in cands ensures !SingledOut(score, cands, c) {
        }
      } else {
        var d :| d in cands && d != own;
        assert !RivalIn(score, cands, own, d);
        forall c | c in cands && c != own ensures Worse(score, c, own) {
          assert !RivalIn(score, cands, own, c);
        }
        assert SingledOut(score, cands, own);
      }
    }
  }

  lemma CapturedResolvesTo(abc: Alphabet, space: TextSpace, quote: Quote, s: nat, e: nat, n: nat, input: Input, r: Resolution)
    requires Captured(abc, space.text, quote, s, e, n) && input.quote == Some(quote)
    requires !HasRival(abc, space.text, quote, s, e) && r == ResolveAnchor(abc, space, input)
    ensures r == WithLines(space, Anchored, ByQuote, s, e, false)
  {
    OwnPlacePicked(abc, space.text, quote, s, e, n);
    CapturedUsable(abc, space.text, quote, s, e, n, input);
  }

  predicate SaysExactly(r: Resolution, s: int, e: int) {
    r.Found? && r.status.Anchored? && r.how.ByQuote? && r.start == s && r.end == e && !r.ambiguous
  }

  lemma LinesSaid(space: TextSpace, r: Resolution, s: int, e: int)
    requires r == WithLines(space, Anchored, ByQuote, s, e, false)
    ensures SaysExactly(r, s, e) && ReportsLines(space, r)
  {
  }

  /**
   * Unchanged text: a captured quote without rivals resolves to the very place it was taken
   * from, whatever lines, version or diff come with it.
   */
  lemma CaptureResolves(abc: Alphabet, space: TextSpace, quote: Quote, s: nat, e: nat, n: nat, input: Input, r: Resolution)
    requires Captured(abc, space.text, quote, s, e, n) && input.quote == Some(quote)
    requires !HasRival(abc, space.text, quote, s, e) && r == ResolveAnchor(abc, space, input)
    ensures SaysExactly(r, s, e) && ReportsLines(space, r)
  {
    CapturedResolvesTo(abc, space, quote, s, e, n, input, r);
    LinesSaid(space, r, s, e);
  }

  /** A quote that occurs once in the text has no rival. */
  lemma UniqueHasNoRival(abc: Alphabet, text: string, quote: Quote, s: nat, e: nat)
    requires FindQuote(abc, text, quote.exact) == [Candidate(s, e, true)]
    ensures !HasRival(abc, text, quote, s, e)
  {
    forall c | c in Eligible(abc, text, quote) ensures c == Candidate(s, e, true) {
      EligibleMembers(abc, text, quote, c);
      assert c in [Candidate(s, e, true)];
    }
  }

  lemma CapturedUsable(abc: Alphabet, text: string, quote: Quote, s: nat, e: nat, n: nat, input: Input)
    requires Captured(abc, text, quote, s, e, n) && input.quote == Some(quote)
    ensures UsableQuote(input) == Some(quote)
  {
    var a: nat, b: nat :| CapturedFrom(abc, text, quote, a, b, s, e, n);
    TrimEmpty(quote.exact);
    assert quote.exact[s - a] == text[s];
  }

  /** Without a line range it is always anchored, and flagged ambiguous exactly when it has a rival. */
  lemma CaptureResolvesWithoutLines(abc: Alphabet, space: TextSpace, quote: Quote, s: nat, e: nat, n: nat, input: Input)
    requires Captured(abc, space.text, quote, s, e, n) && input.quote == Some(quote) && input.lineStart == None
    ensures var r := ResolveAnchor(abc, space, input);
            && r.Found? && r.status.Anchored? && r.how.ByQuote?
            && (r.ambiguous <==> HasRival(abc, space.text, quote, s, e))
            && (!r.ambiguous ==> r.start == s && r.end == e)
  {
    OwnPlaceEligible(abc, space.text, quote, s, e, n);
    OwnPlacePicked(abc, space.text, quote, s, e, n);
    CapturedUsable(abc, space.text, quote, s, e, n, input);
    DecideEligibleOnly(space, input, Search(abc, space, quote, Hint(input, None)));
  }

  lemma DecideEligibleOnly(space: TextSpace, input: Input, found: Evidence)
    requires input.lineStart == None && found.eligible != []
    ensures var r := Decide(space, input, None, Some(found));
            && r.Found? && r.status.Anchored? && r.how.ByQuote?
            && (r.ambiguous <==> found.picked.None?)
            && (found.picked.Some? ==> r.start == found.picked.value.start && r.end == found.picked.value.end)
  {
  }

  /**
   * In plain source text, with lines that were not deleted and start on the line it is on now (as stored, or
   * remapped through a diff), it is anchored without doubt and on that line.
   */
  lemma CaptureResolvesOnLine(abc: Alphabet, text: string, quote: Quote, s: nat, e: nat, n: nat, input: Input)
    requires Captured(abc, text, quote, s, e, n) && input.quote == Some(quote)
    requires TrustedLines(input).Some? && !TrustedLines(input).value.deleted
    requires TrustedLines(input).value.lineStart == LineOf(text, s)
    ensures var r := ResolveAnchor(abc, SourceSpace(text), input);
            && r.Found? && r.status.Anchored? && r.how.ByQuote? && !r.ambiguous
            && r.start >= 0 && LineOf(text, r.start) == LineOf(text, s)
  {
    var lines, own := TrustedLines(input), Candidate(s, e, true);
    OwnPlaceEligible(abc, text, quote, s, e, n);
    OwnPlacePicked(abc, text, quote, s, e, n);
    CapturedUsable(abc, text, quote, s, e, n, input);
    DecideOnLine(text, input, lines.value, Search(abc, SourceSpace(text), quote, Hint(input, lines)), own);
  }

  lemma DecideOnLine(text: string, input: Input, lines: L.Range, found: Evidence, own: Candidate)
    requires own in found.eligible && (found.picked.Some? ==> found.picked.value == own)
    requires !lines.deleted && lines.lineStart == LineOf(text, own.start)
    ensures var r := Decide(SourceSpace(text), input, Some(lines), Some(found));
            && r.Found? && r.status.Anchored? && r.how.ByQuote? && !r.ambiguous
            && r.start >= 0 && LineOf(text, r.start) == LineOf(text, own.start)
  {
    if found.picked.None? {
      NearestOnLine(text, found.eligible, own);
    }
  }

  /** With a candidate on the line itself, the nearest one is on the line. */
  lemma NearestOnLine(text: string, cands: seq<Candidate>, own: Candidate)
    requires own in cands
    ensures var near := PickNearest(SourceSpace(text), cands, Some(LineOf(text, own.start)));
            near.Some? && LineOf(text, near.value.start) == LineOf(text, own.start)
  {
  }

  /** What `captureQuote` stores is the first 2000 characters of the trimmed selection, and the text around the selection. */
  lemma CaptureIsTaken(text: string, start: nat, end: nat, s: nat, e: nat)
    requires start <= end <= |text| && CaptureQuote(text, start, end).Some?
    requires s == SkipBlanks(text, start, end) && e == BackOverBlanks(text, s, end)
    ensures s < e && !IsSpace(text[s]) && !IsSpace(text[e - 1])
    ensures e - s <= 2000 ==> TakenAt(text, CaptureQuote(text, start, end).value, s, e, 32)
    ensures e - s > 2000 ==> CaptureQuote(text, start, end).value == LongQuote(text, s, e)
  {
    EmptySlices(text, s, e);
  }

  lemma EmptySlices(text: string, s: nat, e: nat)
    requires s <= |text| && e <= |text|
    ensures text[s..s] == "" && text[e..e] == ""
  {
  }

  /** Capture then resolve on unchanged text: anchored, and either exactly the trimmed selection or flagged ambiguous. */
  lemma CaptureThenResolve(abc: Alphabet, space: TextSpace, start: nat, end: nat, s: nat, e: nat)
    requires MarksDropped(abc) && start <= end <= |space.text| && CaptureQuote(space.text, start, end).Some?
    requires s == SkipBlanks(space.text, start, end) && e == BackOverBlanks(space.text, s, end)
    requires s <= e <= s + 2000 && PrefixRests(space.text, s, s, 32)
    requires |Occurrences(Normalize(abc, space.text, Strict).norm, NormalizeNeedle(abc, space.text[s..e], Strict), 0)| <= 500
    ensures var r := ResolveAnchor(abc, space, Input(CaptureQuote(space.text, start, end), None, None, false, None));
            && r.Found? && r.status.Anchored? && r.how.ByQuote?
            && (r.ambiguous || (r.start == s && r.end == e))
  {
    var quote := CaptureQuote(space.text, start, end);
    CaptureIsTaken(space.text, start, end, s, e);
    FewOccurrences(abc, space.text, s, e);
    assert CapturedFrom(abc, space.text, quote.value, s, e, s, e, QUOTE_CONTEXT_CHARS);
    CaptureResolvesWithoutLines(abc, space, quote.value, s, e, QUOTE_CONTEXT_CHARS, Input(quote, None, None, false, None));
  }

  // --- Links that the saved prefix cuts ---------------------------------------------------------------------

  /**
   * Wherever the saved prefix begins: the place a quote was taken from is eligible exactly when the text before
   * it agrees with that prefix; otherwise it counts as conflicting.
   */
  lemma CutCaptureEligible(abc: Alphabet, text: string, quote: Quote, a: nat, b: nat, s: nat, e: nat, n: nat)
    requires MarksDropped(abc) && TakenAround(text, quote, a, b, s, e, n) && SuffixReaches(text, b, e, n)
    requires !IsSpace(text[s]) && !IsSpace(text[e - 1]) && WithinCap(abc, text, s, e)
    ensures Candidate(s, e, true) in FindQuote(abc, text, quote.exact)
    ensures Candidate(s, e, true) in Eligible(abc, text, quote) <==> !SideDisagrees(abc, text, Candidate(s, e, true), quote, Prefix)
    ensures Candidate(s, e, true) in Conflicting(abc, text, quote) <==> SideDisagrees(abc, text, Candidate(s, e, true), quote, Prefix)
  {
    var own := Candidate(s, e, true);
    NeedleTrims(abc, text, a, b, s, e);
    OwnPlaceListed(abc, text, quote.exact, s, e);
    OwnPlaceConflicts(abc, text, quote, a, b, own, n);
    ListedEligible(abc, text, quote, own);
  }

  // --- Longer selections ----------------------------------------------------------------------------------

  /** The quote of a selection [s, e) of more than 2000 characters: cut, but with the context of all of it. */
  function LongQuote(text: string, s: nat, e: nat): Quote
    requires s + 2000 <= e <= |text|
  {
    Quote(text[s..s + 2000], text[Max(0, s - 32)..s], text[e..Min(|text|, e + 32)])
  }

  /**
   * The place of a longer selection's quote is eligible exactly when the text after its first 2000 characters
   * agrees with the suffix saved from after the whole selection; otherwise it counts as conflicting.
   */
  lemma LongCaptureEligible(abc: Alphabet, text: string, s: nat, e: nat, t: nat, b: nat, quote: Quote)
    requires MarksDropped(abc) && b == s + QUOTE_EXACT_MAX < e <= |text| && quote == LongQuote(text, s, e)
    requires s < t <= b && !IsSpace(text[s]) && !IsSpace(text[t - 1]) && AllBlank(text[t..b])
    requires WithinCap(abc, text, s, t) && PrefixRests(text, s, s, QUOTE_CONTEXT_CHARS)
    ensures Candidate(s, t, true) in FindQuote(abc, text, quote.exact)
    ensures Candidate(s, t, true) in Eligible(abc, text, quote) <==> !SideDisagrees(abc, text, Candidate(s, t, true), quote, Suffix)
    ensures Candidate(s, t, true) in Conflicting(abc, text, quote) <==> SideDisagrees(abc, text, Candidate(s, t, true), quote, Suffix)
  {
    var own := Candidate(s, t, true);
    assert text[s..s] == "";
    NeedleTrims(abc, text, s, b, s, t);
    OwnPlaceListed(abc, text, quote.exact, s, t);
    LongPrefixAgrees(abc, text, quote, own);
    ListedEligible(abc, text, quote, own);
  }

  lemma LongPrefixAgrees(abc: Alphabet, text: string, quote: Quote, own: Candidate)
    requires MarksDropped(abc) && own.start <= |text| && quote.prefix == text[Max(0, own.start - QUOTE_CONTEXT_CHARS)..own.start]
    requires PrefixRests(text, own.start, own.start, QUOTE_CONTEXT_CHARS)
    ensures Conflicts(abc, text, own, quote) <==> SideDisagrees(abc, text, own, quote, Suffix)
  {
    assert text[own.start..own.start] == "";
    OwnPrefixAgrees(abc, text, quote, own.start, own, QUOTE_CONTEXT_CHARS);
  }

  // --- Views whose lines are not the file's ------------------------------------------------------------------

  /** The decision for a view, given the resolution in it, the one in the source, and the carried quote's. */
  function CombineViews(direct: Option<Resolution>, hasLines: bool, inSource: Resolution, inView: Resolution): Resolution {
    if direct.Some? && ((direct.value.Found? && direct.value.status.Anchored? && !direct.value.ambiguous) || !hasLines)
    then direct.value
    else if inSource.Lost? then direct.GetOr(inSource)
    else if inView.Lost? then direct.GetOr(Lost)
    else Found(if inSource.status.Anchored? && inView.status.Anchored? then Anchored else Moved,
               inSource.how, inView.start, inView.end, inSource.lineStart, inSource.lineEnd, false)
  }

  /** The quote of the source text a resolution landed on. */
  function Carried(source: TextSpace, r: Resolution): Option<Quote> {
    if r.Found? && 0 <= r.start <= r.end <= |source.text| then CaptureQuote(source.text, r.start, r.end) else None
  }

  /** A quote resolves in the view; failing that, the source text it resolves to is carried into the view. */
  function ResolveAnchorInView(abc: Alphabet, view: TextSpace, source: TextSpace, input: Input): Resolution {
    var direct :=
      if UsableQuote(input).Some? then Some(ResolveAnchor(abc, view, Input(input.quote, None, None, input.stale, None))) else None;
    var inSource := ResolveAnchor(abc, source, input);
    var inView := ResolveAnchor(abc, view, Input(Carried(source, inSource), None, None, false, None));
    CombineViews(direct, input.lineStart.Some?, inSource, inView)
  }

  /** A certain match in the view itself is kept, whatever the source says. */
  lemma ViewFirst(abc: Alphabet, view: TextSpace, source: TextSpace, input: Input, r: Resolution)
    requires UsableQuote(input).Some? && r.Found? && r.status.Anchored? && !r.ambiguous
    requires ResolveAnchor(abc, view, Input(input.quote, None, None, input.stale, None)) == r
    ensures ResolveAnchorInView(abc, view, source, input) == r
  {
    var inSource := ResolveAnchor(abc, source, input);
    var inView := ResolveAnchor(abc, view, Input(Carried(source, inSource), None, None, false, None));
    assert CombineViews(Some(r), input.lineStart.Some?, inSource, inView) == r;
  }

  lemma DecideNoLines(space: TextSpace, input: Input, found: Option<Evidence>)
    requires input.lineStart == None
    ensures Decide(space, input, None, found).Found? ==> !Decide(space, input, None, found).how.ByLines?
  {
  }

  /** Without a line range, whatever is found is a non-empty range inside the text. */
  lemma NoLinesInText(abc: Alphabet, space: TextSpace, input: Input)
    requires input.lineStart == None
    ensures var r := ResolveAnchor(abc, space, input);
            r.Found? ==> 0 <= r.start < r.end <= |space.text|
  {
    var quote := UsableQuote(input);
    DecideNoLines(space, input, if quote.Some? then Some(Search(abc, space, quote.value, Hint(input, None))) else None);
    QuoteRangeInText(abc, space, input);
  }

  lemma CombineInText(direct: Option<Resolution>, hasLines: bool, inSource: Resolution, inView: Resolution, n: nat)
    requires direct.Some? && direct.value.Found? ==> 0 <= direct.value.start < direct.value.end <= n
    requires inView.Found? ==> 0 <= inView.start < inView.end <= n
    ensures var r := CombineViews(direct, hasLines, inSource, inView);
            r.Found? ==> 0 <= r.start < r.end <= n
  {
  }

  /** Whatever it was found by, a range reported for the view is non-empty and inside the view's text. */
  lemma ViewRangeInView(abc: Alphabet, view: TextSpace, source: TextSpace, input: Input)
    ensures var r := ResolveAnchorInView(abc, view, source, input);
            r.Found? ==> 0 <= r.start < r.end <= |view.text|
  {
    var inSource := ResolveAnchor(abc, source, input);
    var alone, carried := Input(input.quote, None, None, input.stale, None), Input(Carried(source, inSource), None, None, false, None);
    NoLinesInText(abc, view, alone);
    NoLinesInText(abc, view, carried);
    var direct := if UsableQuote(input).Some? then Some(ResolveAnchor(abc, view, alone)) else None;
    CombineInText(direct, input.lineStart.Some?, inSource, ResolveAnchor(abc, view, carried), |view.text|);
  }
}
