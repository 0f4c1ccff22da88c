/**
 * What is sent about a place besides its quote, and what a quote that is found is taken for
 * (live/src/lib/presence.ts, "Positions").
 */
module PresenceSends {
  import opened Wrappers
  import opened Text
  import opened Normalization
  import opened Candidates
  import opened Context
  import opened OwnContext
  import opened TextSpaces
  import opened Anchor
  import opened Presence

  // --- What is sent -------------------------------------------------------------------

  /** The line of an offset, or 0 if it is not known. */
  function LineSent(space: TextSpace, offset: int): int {
    match space.toLine
    case None => 0
    case Some(lineOf) => if lineOf(offset).Some? then lineOf(offset).value else 0
  }

  /** A pointer carries the version it was seen in and the line it is on. */
  lemma PointerSent(space: TextSpace, offset: int, version: Option<int>, p: Pointer)
    requires PointerAt(space, offset, version) == Some(p)
    ensures p.fileVersion == version && p.lineStart == LineSent(space, offset)
  {
  }

  lemma {:induction false} BlankQuote(text: string, start: nat, end: nat)
    requires start <= end <= |text|
    ensures SelectionQuote(text, start, end).None? <==> AllBlank(text[start..end])
  {
    CaptureTrims(text, start, end);
  }

  /**
   * A selection of nothing but blanks is a caret at its end, and is sent unless the 256 characters before it are
   * blank. Any other is sent, whichever of its ends came first, with the lines of its first and last character.
   */
  lemma SelectionSentWith(space: TextSpace, from: nat, to: nat, version: Option<int>, sel: Option<Selection>)
    requires from <= |space.text| && to <= |space.text| && sel == SelectionAt(space, from, to, version)
    ensures var start, end := if from < to then from else to, if from < to then to else from;
            var blank := AllBlank(space.text[start..end]);
            && (sel.None? <==> blank && AllBlank(space.text[Max(0, end - 256)..end]))
            && (sel.Some? ==>
                  && sel.value.fileVersion == version && (sel.value.collapsed <==> blank)
                  && sel.value.lineStart == LineSent(space, start)
                  && (blank ==> sel.value.lineEnd == sel.value.lineStart)
                  && (!blank ==>
                        var last := LineSent(space, end - 1);
                        sel.value.lineEnd == if KnowsLine(space, end - 1) && last > sel.value.lineStart then last else sel.value.lineStart))
  {
    var start, end := Min(from, to), Max(from, to);
    BlankQuote(space.text, start, end);
    CaretQuoteMeaning(space.text, end);
    if start == end {
      assert space.text[start..end] == "";
    }
  }

  predicate KnowsLine(space: TextSpace, offset: int) {
    space.toLine.Some? && space.toLine.value(offset).Some?
  }

  // --- What is asked for ------------------------------------------------------------------

  /** The two versions are known and differ. */
  predicate Outdated(sent: Option<int>, current: Option<int>) {
    sent.Some? && current.Some? && sent.value != current.value
  }

  function LineAsked(line: int): Option<int> {
    if line == 0 then None else Some(line)
  }

  /** The quote is looked for, with the lines that were sent, unless they were not known; nothing but a version that differs makes it stale. */
  lemma AskedFor(sel: Selection, p: Pointer, current: Option<int>)
    ensures SelectionInput(sel, current)
            == Input(Some(sel.quote), LineAsked(sel.lineStart), LineAsked(sel.lineEnd), Outdated(sel.fileVersion, current), None)
    ensures PointerInput(p, current)
            == Input(Some(p.quote), LineAsked(p.lineStart), LineAsked(p.lineStart), Outdated(p.fileVersion, current), None)
  {
  }

  // --- Where a hit is taken for ---------------------------------------------------------------

  /** A pointer stays inside the word that was found, as far into it as it was sent. */
  lemma PointerPlaced(abc: Alphabet, view: TextSpace, source: Option<TextSpace>, p: Pointer, current: Option<int>, a: int, b: int, r: Option<int>)
    requires ResolveQuote(abc, view, source, PointerInput(p, current)) == Some((a, b))
    requires r == ResolvePointer(abc, view, source, p, current)
    ensures r == Some(if a + p.charOffset <= b then a + p.charOffset else b)
  {
    PointerFrom(abc, view, source, p, current, Some((a, b)));
    WithinWord(p, a, b);
  }

  lemma WithinWord(p: Pointer, a: int, b: int)
    ensures PlacePointer(p, Some((a, b))) == Some(if a + p.charOffset <= b then a + p.charOffset else b)
  {
  }

  /** What lets a selection run on past its quote: the quote is cut, the version and the lines are its own, and more lines were selected. */
  predicate RunsOn(view: TextSpace, source: Option<TextSpace>, sel: Selection, current: Option<int>, a: int, b: int) {
    && |sel.quote.exact| >= 256 && !Outdated(sel.fileVersion, current) && source.None?
    && KnowsLine(view, Max(a, b - 1)) && view.toLine.value(Max(a, b - 1)).value < sel.lineEnd
    && view.toOffsets.Some? && view.toOffsets.value(sel.lineEnd, sel.lineEnd).Some?
  }

  /** A selection starts and ends with what was found, and reaches to the end of its last line if it may run on; it never ends earlier. */
  lemma SelectionPlaced(abc: Alphabet, view: TextSpace, source: Option<TextSpace>, sel: Selection, current: Option<int>, a: int, b: int, r: Option<Resolved>)
    requires ResolveQuote(abc, view, source, SelectionInput(sel, current)) == Some((a, b)) && !sel.collapsed
    requires r == ResolveSelection(abc, view, source, sel, current)
    ensures r.Some? && r.value.start == a && r.value.caret == r.value.end >= b
    ensures RunsOn(view, source, sel, current, a, b) ==> r.value.end == Max(b, view.toOffsets.value(sel.lineEnd, sel.lineEnd).value.1)
    ensures !RunsOn(view, source, sel, current, a, b) ==> r.value.end == b
  {
    SelectionFrom(abc, view, source, sel, current, Some((a, b)));
    EndPlaced(view, source, sel, current, a, b);
  }

  lemma EndPlaced(view: TextSpace, source: Option<TextSpace>, sel: Selection, current: Option<int>, a: int, b: int)
    ensures ExtendedEnd(view, source, sel, IsStale(sel.fileVersion, current), a, b)
            == if RunsOn(view, source, sel, current, a, b) then Max(b, view.toOffsets.value(sel.lineEnd, sel.lineEnd).value.1) else b
  {
  }

  // --- Back on its own line -------------------------------------------------------------------------

  /** A stretch without blanks is on one line. */
  lemma {:induction false} WordOnLine(text: string, s: nat, offset: nat)
    requires s <= offset <= |text| && forall i | s <= i < offset :: InWord(text, i)
    ensures LineOf(text, s) == LineOf(text, offset)
    decreases offset
  {
    if s < offset {
      WordOnLine(text, s, offset - 1);
      LineOfNext(text, offset - 1);
      assert InWord(text, offset - 1);
    }
  }

  /** What a captured quote with current lines that start on its line resolves to. */
  lemma QuoteOnLine(abc: Alphabet, text: string, quote: Quote, s: nat, e: nat, input: Input) returns (a: int, b: int)
    requires Captured(abc, text, quote, s, e, QUOTE_CONTEXT_CHARS) && input.quote == Some(quote)
    requires !input.stale && input.lineStart == Some(LineOf(text, s)) && input.lineEnd.Some?
    ensures ResolveQuote(abc, SourceSpace(text), None, input) == Some((a, b))
    ensures 0 <= a < b <= |text| && LineOf(text, a) == LineOf(text, s)
  {
    var r := ResolveAnchor(abc, SourceSpace(text), input);
    CaptureResolvesOnLine(abc, text, quote, s, e, QUOTE_CONTEXT_CHARS, input);
    QuoteRangeInText(abc, SourceSpace(text), input);
    QuoteMatch(abc, SourceSpace(text), None, input, r);
    a, b := r.start, r.end;
  }

  lemma PointerAsks(text: string, offset: nat, version: Option<int>, p: Pointer, s: nat, e: nat, current: Option<int>)
    requires PointerAt(SourceSpace(text), offset, version) == Some(p) && Quotes(p, offset, s, e) && !Outdated(version, current)
    ensures offset <= |text| && p.charOffset == offset - s && LineOf(text, s) == LineOf(text, offset)
    ensures PointerInput(p, current) == Input(Some(p.quote), Some(LineOf(text, s)), Some(LineOf(text, s)), false, None)
  {
    PointerMeaning(SourceSpace(text), offset, version);
    PointerSent(SourceSpace(text), offset, version, p);
    WordOnLine(text, s, offset);
    AskedFor(Selection(p.quote, 0, 0, None, false), p, current);
  }

  /**
   * In plain source text of the same version, however often its word and what is around it occur, a pointer comes back
   * to an occurrence on its own line.
   */
  lemma PointerOnItsLine(abc: Alphabet, text: string, offset: nat, version: Option<int>, p: Pointer, s: nat, e: nat, current: Option<int>)
      returns (a: int, b: int, r: Option<int>)
    requires PointerAt(SourceSpace(text), offset, version) == Some(p) && Quotes(p, offset, s, e)
    requires Captured(abc, text, p.quote, s, e, QUOTE_CONTEXT_CHARS) && !Outdated(version, current)
    ensures r == ResolvePointer(abc, SourceSpace(text), None, p, current)
    ensures 0 <= a < b <= |text| && LineOf(text, a) == LineOf(text, offset)
    ensures r == Some(if a + p.charOffset <= b then a + p.charOffset else b)
  {
    PointerAsks(text, offset, version, p, s, e, current);
    a, b := QuoteOnLine(abc, text, p.quote, s, e, PointerInput(p, current));
    r := ResolvePointer(abc, SourceSpace(text), None, p, current);
    PointerPlaced(abc, SourceSpace(text), None, p, current, a, b, r);
  }

  lemma SelectionAsks(text: string, from: nat, to: nat, s: nat, e: nat, version: Option<int>, sel: Selection, current: Option<int>)
    requires from <= to <= |text| && TrimsTo(text, from, to, s, e) && SelectionAt(SourceSpace(text), from, to, version) == Some(sel)
    requires !Outdated(version, current)
    ensures !sel.collapsed
    ensures var input := SelectionInput(sel, current);
            input.quote == Some(sel.quote) && !input.stale && input.lineStart == Some(LineOf(text, from)) && input.lineEnd.Some?
  {
    SelectionSent(text, from, to, s, e, version, sel);
    AskedFor(sel, Pointer(sel.quote, 0, 0, None), current);
  }

  /** So does a selection that starts on the line its text starts on. */
  lemma SelectionOnItsLine(abc: Alphabet, text: string, from: nat, to: nat, s: nat, e: nat, t: nat, version: Option<int>, sel: Selection, current: Option<int>)
      returns (r: Resolved)
    requires from <= to <= |text| && TrimsTo(text, from, to, s, e) && SelectionAt(SourceSpace(text), from, to, version) == Some(sel)
    requires Captured(abc, text, sel.quote, s, t, QUOTE_CONTEXT_CHARS) && !Outdated(version, current) && LineOf(text, from) == LineOf(text, s)
    ensures ResolveSelection(abc, SourceSpace(text), None, sel, current) == Some(r)
    ensures 0 <= r.start < |text| && LineOf(text, r.start) == LineOf(text, from)
  {
    SelectionAsks(text, from, to, s, e, version, sel, current);
    var a, b := QuoteOnLine(abc, text, sel.quote, s, t, SelectionInput(sel, current));
    var placed := ResolveSelection(abc, SourceSpace(text), None, sel, current);
    SelectionPlaced(abc, SourceSpace(text), None, sel, current, a, b, placed);
    r := placed.value;
  }
}
