/**
 * Where other people's carets, selections and pointers are: what is sent about a place in
 * a text, and where it lands on the receiver's side (live/src/lib/presence.ts, "Positions").
 */
module Presence {
  import opened Wrappers
  import opened Text
  import opened Normalization
  import opened Context
  import opened OwnContext
  import opened TextSpaces
  import opened Anchor

  const PRESENCE_EXACT_MAX := 256
  const CARET_CHARS := 24
  const WORD_CHARS := 32

  datatype Selection = Selection(quote: Quote, lineStart: int, lineEnd: int, fileVersion: Option<int>, collapsed: bool)

  datatype Pointer = Pointer(quote: Quote, charOffset: int, lineStart: int, fileVersion: Option<int>)

  datatype Resolved = Resolved(start: int, end: int, caret: int)

  // --- Quoting a place ------------------------------------------------------------------

  /** The text between two offsets, with what is around it. */
  function Around(text: string, start: nat, end: nat): Quote
    requires start <= end <= |text|
  {
    Quote(text[start..end], text[Max(0, start - QUOTE_CONTEXT_CHARS)..start], Following(text, end))
  }

  function Following(text: string, i: nat): string
    requires i <= |text|
  {
    text[i..Min(|text|, i + QUOTE_CONTEXT_CHARS)]
  }

  lemma AroundTaken(text: string, start: nat, end: nat)
    requires start < end <= |text|
    ensures TakenAt(text, Around(text, start, end), start, end, QUOTE_CONTEXT_CHARS)
  {
    assert text[start..start] == "" && text[end..end] == "";
  }

  function SelectionQuote(text: string, start: nat, end: nat): Option<Quote>
    requires start <= end <= |text|
  {
    var s := SkipBlanks(text, start, end);
    var e := BackOverBlanks(text, s, end);
    if s >= e then None else Some(Around(text, s, Min(e, s + PRESENCE_EXACT_MAX)))
  }

  method SelectionQuoteLoop(text: string, start: nat, end: nat) returns (r: Option<Quote>)
    requires start <= end <= |text|
    ensures r == SelectionQuote(text, start, end)
  {
    var s, e := TrimRange(text, start, end);
    if s >= e {
      return None;
    }
    return Some(Around(text, s, Min(e, s + PRESENCE_EXACT_MAX)));
  }

  /** Where the quote for a caret starts: back by steps, as long as there is nothing but blanks. */
  function CaretStart(text: string, start: nat, offset: nat): (r: nat)
    requires start <= offset <= |text|
    ensures r <= start
  {
    if start > 0 && AllBlank(text[start..offset]) && offset - start < PRESENCE_EXACT_MAX
    then CaretStart(text, Max(0, Max(offset - PRESENCE_EXACT_MAX, start - CARET_CHARS)), offset)
    else start
  }

  function CaretQuote(text: string, offset: nat): Option<Quote>
    requires offset <= |text|
  {
    var start := CaretStart(text, Max(0, offset - CARET_CHARS), offset);
    if AllBlank(text[start..offset]) then None else Some(Around(text, start, offset))
  }

  method CaretQuoteLoop(text: string, offset: nat) returns (r: Option<Quote>)
    requires offset <= |text|
    ensures r == CaretQuote(text, offset)
  {
    var start: nat := Max(0, offset - CARET_CHARS);
    ghost var first := start;
    while start > 0 && AllBlank(text[start..offset]) && offset - start < PRESENCE_EXACT_MAX
      invariant start <= offset && CaretStart(text, start, offset) == CaretStart(text, first, offset)
    {
      start := Max(0, Max(offset - PRESENCE_EXACT_MAX, start - CARET_CHARS));
    }
    if AllBlank(text[start..offset]) {
      return None;
    }
    return Some(Around(text, start, offset));
  }

  /**
   * The start found is at most 256 characters back, is the furthest one if the stretch is
   * blank, and is no more than one step further back than needed.
   */
  lemma {:induction false} CaretStartMeaning(text: string, start: nat, offset: nat)
    requires start <= offset <= |text| && offset - start <= PRESENCE_EXACT_MAX
    ensures var r := CaretStart(text, start, offset);
            && offset - r <= PRESENCE_EXACT_MAX
            && (AllBlank(text[r..offset]) ==> r == Max(0, offset - PRESENCE_EXACT_MAX))
            && (r < start ==> r + CARET_CHARS >= offset || AllBlank(text[r + CARET_CHARS..offset]))
  {
    if start > 0 && AllBlank(text[start..offset]) && offset - start < PRESENCE_EXACT_MAX {
      var next := Max(0, Max(offset - PRESENCE_EXACT_MAX, start - CARET_CHARS));
      CaretStartMeaning(text, next, offset);
      var r := CaretStart(text, start, offset);
      if r == next && r + CARET_CHARS < offset {
        assert text[r + CARET_CHARS..offset] == text[start..offset][r + CARET_CHARS - start..];
      }
    }
  }

  /** A caret has a quote unless the last 256 characters before it (or all of them) are blank; it is short, and ends at the caret. */
  lemma CaretQuoteMeaning(text: string, offset: nat)
    requires offset <= |text|
    ensures CaretQuote(text, offset).None? <==> AllBlank(text[Max(0, offset - PRESENCE_EXACT_MAX)..offset])
    ensures CaretQuote(text, offset).Some? ==>
              var exact := CaretQuote(text, offset).value.exact;
              && 0 < |exact| <= Min(offset, PRESENCE_EXACT_MAX)
              && exact == text[offset - |exact|..offset]
              && !AllBlank(exact)
              && (|exact| > CARET_CHARS ==> AllBlank(exact[CARET_CHARS..]))
  {
    var from, far := Max(0, offset - CARET_CHARS), Max(0, offset - PRESENCE_EXACT_MAX);
    CaretStartMeaning(text, from, offset);
    CaretStretch(text, CaretStart(text, from, offset), far, offset, text[CaretStart(text, from, offset)..offset]);
  }

  lemma CaretStretch(text: string, r: nat, far: nat, offset: nat, exact: string)
    requires far <= r <= offset <= |text| && exact == text[r..offset] && (AllBlank(exact) ==> r == far)
    requires r + CARET_CHARS >= offset || AllBlank(text[r + CARET_CHARS..offset])
    ensures AllBlank(exact) <==> AllBlank(text[far..offset])
    ensures |exact| == offset - r && exact == text[offset - |exact|..offset]
    ensures |exact| > CARET_CHARS ==> AllBlank(exact[CARET_CHARS..])
  {
    SliceOfSlice(text, far, offset, r - far, offset - far);
    if |exact| > CARET_CHARS {
      SliceOfSlice(text, r, offset, CARET_CHARS, offset - r);
    }
  }

  // --- The word under the pointer -----------------------------------------------------------

  predicate InWord(text: string, i: int) {
    0 <= i < |text| && !IsSpace(text[i])
  }

  function WordStart(text: string, start: nat, offset: nat): (r: nat)
    requires start <= offset
    ensures r <= start && (offset - start <= WORD_CHARS ==> offset - r <= WORD_CHARS)
    ensures r == 0 || offset - r >= WORD_CHARS || !InWord(text, r - 1)
  {
    if start > 0 && offset - start < WORD_CHARS && InWord(text, start - 1) then WordStart(text, start - 1, offset) else start
  }

  function WordEnd(text: string, end: nat, offset: nat): (r: nat)
    requires offset <= end <= |text|
    ensures end <= r <= |text| && (end - offset <= WORD_CHARS ==> r - offset <= WORD_CHARS)
    ensures r == |text| || r - offset >= WORD_CHARS || !InWord(text, r)
    decreases |text| - end
  {
    if end < |text| && end - offset < WORD_CHARS && InWord(text, end) then WordEnd(text, end + 1, offset) else end
  }

  lemma {:induction false} WordStartInWord(text: string, start: nat, offset: nat, i: nat)
    requires start <= offset && WordStart(text, start, offset) <= i < start
    ensures InWord(text, i)
    decreases start
  {
    if i < start - 1 {
      WordStartInWord(text, start - 1, offset, i);
    }
  }

  lemma {:induction false} WordEndInWord(text: string, end: nat, offset: nat, i: nat)
    requires offset <= end <= |text| && end <= i < WordEnd(text, end, offset)
    ensures InWord(text, i)
    decreases |text| - end
  {
    if i > end {
      WordEndInWord(text, end + 1, offset, i);
    }
  }

  /** The line of an offset, or 0 when lines are not known. */
  function LineOrZero(space: TextSpace, offset: int): int {
    if space.toLine.None? then 0 else space.toLine.value(offset).GetOr(0)
  }

  function PointerAt(space: TextSpace, offset: int, fileVersion: Option<int>): Option<Pointer> {
    var text := space.text;
    if !InWord(text, offset) && !InWord(text, offset - 1) then None
    else
      var start, end := WordStart(text, offset, offset), WordEnd(text, offset, offset);
      Some(Pointer(Around(text, start, end), offset - start, LineOrZero(space, offset), fileVersion))
  }

  method WordStartLoop(text: string, offset: nat) returns (start: nat)
    ensures start == WordStart(text, offset, offset)
  {
    start := offset;
    while start > 0 && offset - start < WORD_CHARS && InWord(text, start - 1)
      invariant start <= offset && WordStart(text, start, offset) == WordStart(text, offset, offset)
    {
      start := start - 1;
    }
  }

  method WordEndLoop(text: string, offset: nat) returns (end: nat)
    requires offset <= |text|
    ensures end == WordEnd(text, offset, offset)
  {
    end := offset;
    while end < |text| && end - offset < WORD_CHARS && InWord(text, end)
      invariant offset <= end <= |text| && WordEnd(text, end, offset) == WordEnd(text, offset, offset)
    {
      end := end + 1;
    }
  }

  method PointerAtLoop(space: TextSpace, offset: int, fileVersion: Option<int>) returns (r: Option<Pointer>)
    ensures r == PointerAt(space, offset, fileVersion)
  {
    var text := space.text;
    if !InWord(text, offset) && !InWord(text, offset - 1) {
      return None;
    }
    var start := WordStartLoop(text, offset);
    var end := WordEndLoop(text, offset);
    return Some(Pointer(Around(text, start, end), offset - start, LineOrZero(space, offset), fileVersion));
  }

  /** A pointer is sent exactly when it touches a word; the quote is a blank-free stretch of at most 32 characters on each side. */
  lemma PointerMeaning(space: TextSpace, offset: int, fileVersion: Option<int>)
    ensures PointerAt(space, offset, fileVersion).Some?
            <==> 0 <= offset <= |space.text| && (InWord(space.text, offset) || InWord(space.text, offset - 1))
    ensures PointerAt(space, offset, fileVersion).Some? ==>
              var p := PointerAt(space, offset, fileVersion).value;
              var start := offset - p.charOffset;
              var end := start + |p.quote.exact|;
              && 0 <= start <= offset <= end <= |space.text| && start < end
              && offset - start <= WORD_CHARS && end - offset <= WORD_CHARS
              && TakenAt(space.text, p.quote, start, end, QUOTE_CONTEXT_CHARS)
              && (forall i | start <= i < end :: InWord(space.text, i))
              && (InWord(space.text, start - 1) ==> offset - start == WORD_CHARS)
              && (InWord(space.text, end) ==> end - offset == WORD_CHARS)
  {
    if PointerAt(space, offset, fileVersion).Some? {
      var start, end := WordStart(space.text, offset, offset), WordEnd(space.text, offset, offset);
      AroundTaken(space.text, start, end);
      forall i | start <= i < end ensures InWord(space.text, i) {
        if i < offset {
          WordStartInWord(space.text, offset, offset, i);
        } else {
          WordEndInWord(space.text, offset, offset, i);
        }
      }
    }
  }

  // --- Selections ---------------------------------------------------------------------------------

  /** Nothing but blanks between two offsets, or nothing at all: a caret. */
  predicate IsCaret(text: string, start: nat, end: nat)
    requires start <= end <= |text|
  {
    start == end || SelectionQuote(text, start, end).None?
  }

  function SelectionAt(space: TextSpace, from: nat, to: nat, fileVersion: Option<int>): Option<Selection>
    requires from <= |space.text| && to <= |space.text|
  {
    var start, end := Min(from, to), Max(from, to);
    var collapsed := IsCaret(space.text, start, end);
    var quote := if collapsed then CaretQuote(space.text, end) else SelectionQuote(space.text, start, end);
    if quote.None? then None
    else
      var lineStart := LineOrZero(space, start);
      var lineEnd :=
        if collapsed || space.toLine.None? then lineStart
        else space.toLine.value(Max(start, end - 1)).GetOr(lineStart);
      Some(Selection(quote.value, lineStart, Max(lineStart, lineEnd), fileVersion, collapsed))
  }

  // --- Resolving ------------------------------------------------------------------------------------

  predicate IsStale(fileVersion: Option<int>, current: Option<int>) {
    fileVersion.Some? && current.Some? && fileVersion != current
  }

  function NonZero(line: int): Option<int> {
    if line == 0 then None else Some(line)
  }

  /** Only a quote match counts. */
  function ResolveQuote(abc: Alphabet, view: TextSpace, source: Option<TextSpace>, input: Input): Option<(int, int)> {
    var r := if source.Some? then ResolveAnchorInView(abc, view, source.value, input) else ResolveAnchor(abc, view, input);
    if r.Lost? || r.how.ByLines? then None else Some((r.start, r.end))
  }

  /** How many blanks there are from `i` on. */
  function BlanksFrom(text: string, i: nat): (n: nat)
    ensures i <= |text| ==> i + n <= |text|
    decreases |text| - i
  {
    if i < |text| && IsSpace(text[i]) then 1 + BlanksFrom(text, i + 1) else 0
  }

  /** The caret: past the blanks that were before it when it was sent, but not past those that were after it. */
  function CaretAfter(text: string, suffix: string, quoteEnd: nat): nat {
    quoteEnd + Max(0, BlanksFrom(text, quoteEnd) - BlanksFrom(suffix, 0))
  }

  method CaretAfterLoop(text: string, suffix: string, quoteEnd: nat) returns (caret: nat)
    ensures caret == CaretAfter(text, suffix, quoteEnd)
  {
    var run := 0;
    while quoteEnd + run < |text| && IsSpace(text[quoteEnd + run])
      invariant BlanksFrom(text, quoteEnd) == run + BlanksFrom(text, quoteEnd + run)
      decreases |text| - run
    {
      run := run + 1;
    }
    caret := quoteEnd + Max(0, run - BlanksFrom(suffix, 0));
  }

  /** A quote that fills the cap runs on to the end of the selection's last line. */
  function ExtendedEnd(view: TextSpace, source: Option<TextSpace>, sel: Selection, stale: bool, start: int, end: int): int {
    var endLine := if view.toLine.None? then None else view.toLine.value(Max(start, end - 1));
    if && |sel.quote.exact| >= PRESENCE_EXACT_MAX && !stale && source.None?
       && endLine.Some? && sel.lineEnd > endLine.value && view.toOffsets.Some?
    then
      var last := view.toOffsets.value(sel.lineEnd, sel.lineEnd);
      if last.Some? && last.value.1 > end then last.value.1 else end
    else end
  }

  function SelectionInput(sel: Selection, current: Option<int>): Input {
    Input(Some(sel.quote), NonZero(sel.lineStart), NonZero(sel.lineEnd), IsStale(sel.fileVersion, current), None)
  }

  /** What becomes of a selection whose quote was found at `hit`. */
  function PlaceSelection(view: TextSpace, source: Option<TextSpace>, sel: Selection, stale: bool, hit: Option<(int, int)>): Option<Resolved> {
    match hit
    case None => None
    case Some((start, end)) =>
      if sel.collapsed then
        var caret := CaretAfter(view.text, sel.quote.suffix, Max(0, end));
        Some(Resolved(caret, caret, caret))
      else
        var e := ExtendedEnd(view, source, sel, stale, start, end);
        Some(Resolved(start, e, e))
  }

  function ResolveSelection(abc: Alphabet, view: TextSpace, source: Option<TextSpace>, sel: Selection, current: Option<int>): Option<Resolved> {
    var hit := ResolveQuote(abc, view, source, SelectionInput(sel, current));
    PlaceSelection(view, source, sel, IsStale(sel.fileVersion, current), hit)
  }

  function PointerInput(p: Pointer, current: Option<int>): Input {
    Input(Some(p.quote), NonZero(p.lineStart), NonZero(p.lineStart), IsStale(p.fileVersion, current), None)
  }

  function PlacePointer(p: Pointer, hit: Option<(int, int)>): Option<int> {
    match hit
    case None => None
    case Some((start, end)) => Some(Min(end, start + p.charOffset))
  }

  function ResolvePointer(abc: Alphabet, view: TextSpace, source: Option<TextSpace>, p: Pointer, current: Option<int>): Option<int> {
    PlacePointer(p, ResolveQuote(abc, view, source, PointerInput(p, current)))
  }

  // --- The theorems: what was sent comes back -----------------------------------------------------------

  /** A captured quote without rivals is found where it was taken, with or without a source text behind the view. */
  lemma QuoteComesBack(abc: Alphabet, view: TextSpace, source: Option<TextSpace>, input: Input, quote: Quote, s: nat, e: nat)
    requires Captured(abc, view.text, quote, s, e, QUOTE_CONTEXT_CHARS) && !HasRival(abc, view.text, quote, s, e)
    requires input.quote == Some(quote)
    ensures ResolveQuote(abc, view, source, input) == Some((s, e))
  {
    if source.Some? {
      var alone := Input(input.quote, None, None, input.stale, None);
      var r := ResolveAnchor(abc, view, alone);
      CapturedUsable(abc, view.text, quote, s, e, QUOTE_CONTEXT_CHARS, input);
      CaptureResolves(abc, view, quote, s, e, QUOTE_CONTEXT_CHARS, alone, r);
      ViewFirst(abc, view, source.value, input, r);
      QuoteMatch(abc, view, source, input, ResolveAnchorInView(abc, view, source.value, input));
    } else {
      var r := ResolveAnchor(abc, view, input);
      CaptureResolves(abc, view, quote, s, e, QUOTE_CONTEXT_CHARS, input, r);
      QuoteMatch(abc, view, source, input, r);
    }
  }

  lemma QuoteMatch(abc: Alphabet, view: TextSpace, source: Option<TextSpace>, input: Input, r: Resolution)
    requires r == if source.Some? then ResolveAnchorInView(abc, view, source.value, input) else ResolveAnchor(abc, view, input)
    ensures ResolveQuote(abc, view, source, input) == if r.Lost? || r.how.ByLines? then None else Some((r.start, r.end))
  {
  }

  /** The stretch a pointer quotes. */
  predicate Quotes(p: Pointer, offset: int, s: nat, e: nat) {
    s == offset - p.charOffset && e == s + |p.quote.exact|
  }

  /** A pointer whose word is found where it was lands on its own offset. */
  lemma PointerLands(view: TextSpace, offset: int, version: Option<int>, p: Pointer, s: nat, e: nat)
    requires PointerAt(view, offset, version) == Some(p) && Quotes(p, offset, s, e)
    ensures PlacePointer(p, Some((s, e))) == Some(offset)
  {
    PointerMeaning(view, offset, version);
  }

  lemma PointerFrom(abc: Alphabet, view: TextSpace, source: Option<TextSpace>, p: Pointer, current: Option<int>, hit: Option<(int, int)>)
    requires ResolveQuote(abc, view, source, PointerInput(p, current)) == hit
    ensures ResolvePointer(abc, view, source, p, current) == PlacePointer(p, hit)
  {
  }

  /**
   * What is quoted from `a` to `b`, with its text from `s` to `e`, can be told apart in its own text: the comparison
   * reads the context that was sent, which does not begin inside a link; no other occurrence fits it as well; and
   * the place is within the cap on occurrences.
   */
  ghost predicate Findable(abc: Alphabet, text: string, quote: Quote, a: nat, b: nat, s: nat, e: nat) {
    && MarksDropped(abc) && a <= s < e <= b <= |text|
    && PrefixRests(text, a, s, QUOTE_CONTEXT_CHARS) && SuffixReaches(text, b, e, QUOTE_CONTEXT_CHARS)
    && WithinCap(abc, text, s, e) && !HasRival(abc, text, quote, s, e)
  }

  /** [s, e) is the text of [a, b): what is left when blanks at its ends are trimmed. */
  ghost predicate Trims(text: string, a: nat, b: nat, s: nat, e: nat) {
    && a <= s < e <= b <= |text| && !IsSpace(text[s]) && !IsSpace(text[e - 1])
    && AllBlank(text[a..s]) && AllBlank(text[e..b])
  }

  lemma AroundCaptured(abc: Alphabet, text: string, quote: Quote, a: nat, b: nat, s: nat, e: nat)
    requires Trims(text, a, b, s, e) && quote == Around(text, a, b) && Findable(abc, text, quote, a, b, s, e)
    ensures Captured(abc, text, quote, s, e, QUOTE_CONTEXT_CHARS)
  {
    assert CapturedFrom(abc, text, quote, a, b, s, e, QUOTE_CONTEXT_CHARS);
  }

  /** Whatever is sent about a findable place is found there, with or without a source text behind the view. */
  lemma AroundComesBack(abc: Alphabet, view: TextSpace, source: Option<TextSpace>, input: Input, quote: Quote, a: nat, b: nat, s: nat, e: nat)
    requires Trims(view.text, a, b, s, e) && quote == Around(view.text, a, b) && Findable(abc, view.text, quote, a, b, s, e)
    requires input.quote == Some(quote)
    ensures ResolveQuote(abc, view, source, input) == Some((s, e))
  {
    AroundCaptured(abc, view.text, quote, a, b, s, e);
    QuoteComesBack(abc, view, source, input, quote, s, e);
  }

  lemma PointerEnds(view: TextSpace, offset: int, version: Option<int>, p: Pointer, s: nat, e: nat)
    requires PointerAt(view, offset, version) == Some(p) && Quotes(p, offset, s, e)
    ensures Trims(view.text, s, e, s, e) && p.quote == Around(view.text, s, e)
  {
    PointerMeaning(view, offset, version);
    assert InWord(view.text, s) && InWord(view.text, e - 1);
    assert view.text[s..s] == "" && view.text[e..e] == "";
  }

  /** On the text it was sent from, a pointer in a word that can be told apart comes back, whatever version and source come with it. */
  lemma PointerRoundTrip(abc: Alphabet, view: TextSpace, source: Option<TextSpace>, offset: int, version: Option<int>, p: Pointer, s: nat, e: nat,
                         current: Option<int>)
    requires PointerAt(view, offset, version) == Some(p) && Quotes(p, offset, s, e)
    requires Findable(abc, view.text, p.quote, s, e, s, e)
    ensures ResolvePointer(abc, view, source, p, current) == Some(offset)
  {
    PointerEnds(view, offset, version, p, s, e);
    PointerLands(view, offset, version, p, s, e);
    AroundComesBack(abc, view, source, PointerInput(p, current), p.quote, s, e, s, e);
    PointerFrom(abc, view, source, p, current, Some((s, e)));
  }

  /** Blanks on both sides of a place add up. */
  lemma {:induction false} BlanksThrough(text: string, from: nat, to: nat)
    requires from <= to <= |text| && AllBlank(text[from..to])
    ensures BlanksFrom(text, from) == to - from + BlanksFrom(text, to)
    decreases |text| - from
  {
    if from < to {
      assert text[from..to][0] == text[from] && text[from + 1..to] == text[from..to][1..];
      BlanksThrough(text, from + 1, to);
    }
  }

  lemma {:induction false} BlanksInSlice(text: string, from: nat, to: nat, i: nat)
    requires from + i <= to <= |text|
    ensures BlanksFrom(text[from..to], i) == Min(to - from - i, BlanksFrom(text, from + i))
    decreases |text| - i
  {
    if from + i < to {
      BlanksInSlice(text, from, to, i + 1);
    }
  }

  lemma {:induction false} BackOverMeaning(text: string, start: nat, end: nat)
    requires start <= end <= |text|
    ensures start <= BackOverBlanks(text, start, end) <= end && AllBlank(text[BackOverBlanks(text, start, end)..end])
  {
    if start < end && IsSpace(text[end - 1]) {
      BackOverMeaning(text, start, end - 1);
      var r := BackOverBlanks(text, start, end);
      assert text[r..end] == text[r..end - 1] + [text[end - 1]];
    }
  }

  lemma SuffixBlanks(text: string, offset: nat)
    requires offset <= |text|
    ensures BlanksFrom(Following(text, offset), 0) == Min(QUOTE_CONTEXT_CHARS, BlanksFrom(text, offset))
  {
    BlanksInSlice(text, offset, Min(|text|, offset + QUOTE_CONTEXT_CHARS), 0);
  }

  /** Where a caret comes back to: past its own offset by the blanks after it beyond the 32 that were sent. */
  function CaretBack(text: string, offset: nat): nat {
    offset + Max(0, BlanksFrom(text, offset) - QUOTE_CONTEXT_CHARS)
  }

  lemma CaretArithmetic(text: string, start: nat, offset: nat, suffix: string)
    requires start <= offset <= |text| && suffix == Following(text, offset)
    ensures CaretAfter(text, suffix, BackOverBlanks(text, start, offset)) == CaretBack(text, offset)
  {
    var e := BackOverBlanks(text, start, offset);
    BackOverMeaning(text, start, offset);
    BlanksThrough(text, e, offset);
    SuffixBlanks(text, offset);
  }

  lemma CaretQuoteAround(text: string, offset: nat)
    requires offset <= |text| && CaretQuote(text, offset).Some?
    ensures var quote := CaretQuote(text, offset).value;
            0 < |quote.exact| <= offset && quote == Around(text, offset - |quote.exact|, offset) && !AllBlank(quote.exact)
  {
    var start := CaretStart(text, Max(0, offset - CARET_CHARS), offset);
    assert |text[start..offset]| == offset - start;
  }

  lemma CaretSent(view: TextSpace, from: nat, to: nat, offset: nat, version: Option<int>, sel: Selection)
    requires from <= |view.text| && to <= |view.text| && IsCaret(view.text, Min(from, to), Max(from, to)) && offset == Max(from, to)
    requires SelectionAt(view, from, to, version) == Some(sel)
    ensures sel.collapsed && CaretQuote(view.text, offset) == Some(sel.quote)
  {
  }

  /** Where the trimmed quote of a caret ends. */
  function QuoteEnd(text: string, offset: nat, sel: Selection): nat
    requires |sel.quote.exact| <= offset <= |text|
  {
    BackOverBlanks(text, offset - |sel.quote.exact|, offset)
  }

  lemma CaretPlaced(view: TextSpace, source: Option<TextSpace>, offset: nat, sel: Selection, stale: bool, s: int)
    requires |sel.quote.exact| <= offset <= |view.text| && sel.collapsed
    requires sel.quote.suffix == Following(view.text, offset)
    ensures var caret := CaretBack(view.text, offset);
            PlaceSelection(view, source, sel, stale, Some((s, QuoteEnd(view.text, offset, sel)))) == Some(Resolved(caret, caret, caret))
  {
    CaretArithmetic(view.text, offset - |sel.quote.exact|, offset, sel.quote.suffix);
  }

  /** A caret whose quote ends at `e` once trimmed. */
  predicate CaretQuoted(view: TextSpace, from: nat, to: nat, version: Option<int>, sel: Selection, e: nat) {
    && from <= |view.text| && to <= |view.text| && IsCaret(view.text, Min(from, to), Max(from, to))
    && SelectionAt(view, from, to, version) == Some(sel)
    && |sel.quote.exact| <= Max(from, to) && e == QuoteEnd(view.text, Max(from, to), sel)
  }

  /**
   * A caret (an empty or blank selection counts as one at its end) whose quote is found
   * where it was captured lands on its own offset exactly when at most 32 blanks follow
   * it, and just before the last 32 of them otherwise.
   */
  lemma CaretLands(view: TextSpace, source: Option<TextSpace>, from: nat, to: nat, version: Option<int>, sel: Selection, stale: bool, s: int, e: nat)
    requires CaretQuoted(view, from, to, version, sel, e)
    ensures var caret, blanks := CaretBack(view.text, Max(from, to)), BlanksFrom(view.text, Max(from, to));
            && PlaceSelection(view, source, sel, stale, Some((s, e))) == Some(Resolved(caret, caret, caret))
            && (caret == Max(from, to) <==> blanks <= QUOTE_CONTEXT_CHARS)
            && (blanks > QUOTE_CONTEXT_CHARS ==> caret + QUOTE_CONTEXT_CHARS == Max(from, to) + blanks)
  {
    CaretSent(view, from, to, Max(from, to), version, sel);
    CaretQuoteAround(view.text, Max(from, to));
    CaretPlaced(view, source, Max(from, to), sel, stale, s);
  }

  /** Trimming a stretch that has text leaves the text. */
  lemma TrimsMeaning(text: string, a: nat, b: nat)
    requires a <= b <= |text| && !AllBlank(text[a..b])
    ensures Trims(text, a, b, SkipBlanks(text, a, b), BackOverBlanks(text, a, b))
  {
    var k :| 0 <= k < b - a && !IsSpace(text[a..b][k]);
    var s := SkipBlanks(text, a, b);
    SkippedBlank(text, a, b);
    BackStops(text, a, b, s);
    BackOverMeaning(text, a, b);
  }

  /** The caret quoted from `a`, and the text in its quote. */
  predicate CaretText(view: TextSpace, from: nat, to: nat, version: Option<int>, sel: Selection, a: nat, s: nat, e: nat) {
    && CaretQuoted(view, from, to, version, sel, e)
    && a == Max(from, to) - |sel.quote.exact| && s == SkipBlanks(view.text, a, Max(from, to))
  }

  lemma CaretTextMeaning(view: TextSpace, from: nat, to: nat, version: Option<int>, sel: Selection, a: nat, s: nat, e: nat)
    requires CaretText(view, from, to, version, sel, a, s, e)
    ensures Trims(view.text, a, Max(from, to), s, e) && sel.quote == Around(view.text, a, Max(from, to))
  {
    CaretSent(view, from, to, Max(from, to), version, sel);
    CaretTrims(view.text, Max(from, to), sel.quote, a, s, e);
  }

  lemma CaretTrims(text: string, offset: nat, quote: Quote, a: nat, s: nat, e: nat)
    requires offset <= |text| && CaretQuote(text, offset) == Some(quote) && |quote.exact| <= offset
    requires a == offset - |quote.exact| && s == SkipBlanks(text, a, offset) && e == BackOverBlanks(text, a, offset)
    ensures Trims(text, a, offset, s, e) && quote == Around(text, a, offset)
  {
    CaretQuoteAround(text, offset);
    TrimsMeaning(text, a, offset);
  }

  /**
   * On the text it was sent from, a caret whose quote can be told apart comes back to its own offset exactly
   * when at most 32 blanks follow it, and just before the last 32 of them otherwise.
   */
  lemma CaretRoundTrip(abc: Alphabet, view: TextSpace, source: Option<TextSpace>, from: nat, to: nat, version: Option<int>, sel: Selection,
                       a: nat, s: nat, e: nat, current: Option<int>)
    requires CaretText(view, from, to, version, sel, a, s, e)
    requires Findable(abc, view.text, sel.quote, a, Max(from, to), s, e)
    ensures var caret, blanks := CaretBack(view.text, Max(from, to)), BlanksFrom(view.text, Max(from, to));
            && ResolveSelection(abc, view, source, sel, current) == Some(Resolved(caret, caret, caret))
            && (caret == Max(from, to) <==> blanks <= QUOTE_CONTEXT_CHARS)
            && (blanks > QUOTE_CONTEXT_CHARS ==> caret + QUOTE_CONTEXT_CHARS == Max(from, to) + blanks)
  {
    CaretTextMeaning(view, from, to, version, sel, a, s, e);
    CaretLands(view, source, from, to, version, sel, IsStale(sel.fileVersion, current), s, e);
    AroundComesBack(abc, view, source, SelectionInput(sel, current), sel.quote, a, Max(from, to), s, e);
    SelectionFrom(abc, view, source, sel, current, Some((s, e)));
  }

  lemma SelectionFrom(abc: Alphabet, view: TextSpace, source: Option<TextSpace>, sel: Selection, current: Option<int>, hit: Option<(int, int)>)
    requires ResolveQuote(abc, view, source, SelectionInput(sel, current)) == hit
    ensures ResolveSelection(abc, view, source, sel, current) == PlaceSelection(view, source, sel, IsStale(sel.fileVersion, current), hit)
  {
  }

  /** The trimmed selection that is sent. */
  predicate TrimsTo(text: string, start: nat, end: nat, s: nat, e: nat)
    requires start <= end <= |text|
  {
    s == SkipBlanks(text, start, end) && e == BackOverBlanks(text, s, end) && s < e
  }

  lemma TrimmedEnds(text: string, start: nat, end: nat, s: nat, e: nat)
    requires start <= end <= |text| && TrimsTo(text, start, end, s, e)
    ensures start <= s < e <= end && !IsSpace(text[s]) && !IsSpace(text[e - 1])
  {
  }

  /** The line a selection ends on reaches to the end of the trimmed selection. */
  lemma LineReaches(text: string, last: nat, e: nat)
    requires last < |text| && e <= last + 1 && (e == last + 1 ==> !IsSpace(text[last]))
    ensures RangeOf(text, LineOf(text, last), LineOf(text, last)).Some?
    ensures e <= RangeOf(text, LineOf(text, last), LineOf(text, last)).value.1
  {
    var line := LineOf(text, last);
    LineOfMonotone(text, last, |text|);
    RangeMeaning(text, line, line, last);
    RangeMeaning(text, line, line, last + 1);
    LineOfNext(text, last);
  }

  /** What is sent about a selection with text in it. */
  lemma SelectionSent(text: string, from: nat, to: nat, s: nat, e: nat, version: Option<int>, sel: Selection)
    requires from <= to <= |text| && TrimsTo(text, from, to, s, e) && SelectionAt(SourceSpace(text), from, to, version) == Some(sel)
    ensures from < to && !sel.collapsed && sel.fileVersion == version
    ensures sel.quote == Around(text, s, Min(e, s + PRESENCE_EXACT_MAX))
    ensures sel.lineStart == LineOf(text, from) && sel.lineEnd == LineOf(text, to - 1)
  {
    LineOfMonotone(text, from, Max(from, to - 1));
    SourceSelection(text, from, to, version, sel);
  }

  lemma SourceSelection(text: string, from: nat, to: nat, version: Option<int>, sel: Selection)
    requires from < to <= |text| && SelectionQuote(text, from, to).Some? && SelectionAt(SourceSpace(text), from, to, version) == Some(sel)
    ensures !sel.collapsed && sel.fileVersion == version && Some(sel.quote) == SelectionQuote(text, from, to)
    ensures sel.lineStart == LineOf(text, from) && sel.lineEnd == Max(LineOf(text, from), LineOf(text, to - 1))
  {
  }

  /** Where the quote of a selection [s, e) ends: its first 256 characters, without blanks at the end. */
  function QuotedEnd(text: string, s: nat, e: nat): nat
    requires s <= e <= |text|
  {
    BackOverBlanks(text, s, Min(e, s + PRESENCE_EXACT_MAX))
  }

  lemma QuotedEndMeaning(text: string, s: nat, e: nat, t: nat)
    requires s < e <= |text| && !IsSpace(text[s]) && !IsSpace(text[e - 1]) && t == QuotedEnd(text, s, e)
    ensures Trims(text, s, Min(e, s + PRESENCE_EXACT_MAX), s, t)
    ensures e - s <= PRESENCE_EXACT_MAX ==> t == e
  {
    var b := Min(e, s + PRESENCE_EXACT_MAX);
    BackStops(text, s, b, s);
    BackOverMeaning(text, s, b);
    assert text[s..s] == "";
  }

  lemma ExtendedMeaning(text: string, sel: Selection, to: nat, s: nat, e: nat, t: nat)
    requires 0 < to <= |text| && s < t <= e <= to && (e == to ==> !IsSpace(text[to - 1]))
    requires e - s <= PRESENCE_EXACT_MAX ==> t == e
    requires e - s > PRESENCE_EXACT_MAX ==> t < e
    requires |sel.quote.exact| == Min(e - s, PRESENCE_EXACT_MAX) && sel.lineEnd == LineOf(text, to - 1)
    ensures var end := ExtendedEnd(SourceSpace(text), None, sel, false, s, t);
            && (e - s < PRESENCE_EXACT_MAX ==> end == e)
            && (end >= e <==> e - s <= PRESENCE_EXACT_MAX || LineOf(text, to - 1) > LineOf(text, t - 1))
            && (end < e ==> end == t)
  {
    LineReaches(text, to - 1, e);
  }

  /** How a selection [s, e), quoted up to `t`, comes out: exactly, if it is shorter than the cap of 256 characters. */
  predicate Covers(text: string, to: nat, s: nat, e: nat, t: nat, r: Option<Resolved>)
    requires 0 < to && 0 < t
  {
    && r.Some? && r.value.start == s && r.value.caret == r.value.end
    && (e - s < PRESENCE_EXACT_MAX ==> r.value.end == e)
    && (r.value.end >= e <==> e - s <= PRESENCE_EXACT_MAX || LineOf(text, to - 1) > LineOf(text, t - 1))
    && (r.value.end < e ==> r.value.end == t)
  }

  /**
   * In plain source text of the same version, a selection whose quote is found where it was taken
   * starts where it started. It ends where it ended if it is shorter than the cap of 256 characters;
   * a longer one is covered exactly when its last line is not the line the quote ends on, and else ends with the quote.
   */
  lemma SelectionLands(text: string, from: nat, to: nat, s: nat, e: nat, t: nat, version: Option<int>, sel: Selection)
    requires from <= to <= |text| && TrimsTo(text, from, to, s, e) && SelectionAt(SourceSpace(text), from, to, version) == Some(sel)
    requires t == QuotedEnd(text, s, e)
    ensures 0 < to && 0 < t && Covers(text, to, s, e, t, PlaceSelection(SourceSpace(text), None, sel, false, Some((s, t))))
  {
    SelectionSent(text, from, to, s, e, version, sel);
    TrimmedEnds(text, from, to, s, e);
    QuotedEndMeaning(text, s, e, t);
    ExtendedMeaning(text, sel, to, s, e, t);
  }

  /** On the text it was sent from, a selection that can be told apart comes back just so. */
  lemma SelectionRoundTrip(abc: Alphabet, text: string, from: nat, to: nat, s: nat, e: nat, t: nat, version: Option<int>, sel: Selection)
    requires from <= to <= |text| && TrimsTo(text, from, to, s, e) && SelectionAt(SourceSpace(text), from, to, version) == Some(sel)
    requires t == QuotedEnd(text, s, e)
    requires Findable(abc, text, sel.quote, s, Min(e, s + PRESENCE_EXACT_MAX), s, t)
    ensures 0 < to && 0 < t && Covers(text, to, s, e, t, ResolveSelection(abc, SourceSpace(text), None, sel, version))
  {
    SelectionSent(text, from, to, s, e, version, sel);
    TrimmedEnds(text, from, to, s, e);
    QuotedEndMeaning(text, s, e, t);
    SelectionComesBack(abc, text, sel, version, s, Min(e, s + PRESENCE_EXACT_MAX), t);
    SelectionLands(text, from, to, s, e, t, version, sel);
  }

  lemma SelectionComesBack(abc: Alphabet, text: string, sel: Selection, current: Option<int>, s: nat, b: nat, t: nat)
    requires Trims(text, s, b, s, t) && sel.quote == Around(text, s, b) && Findable(abc, text, sel.quote, s, b, s, t)
    ensures ResolveSelection(abc, SourceSpace(text), None, sel, current)
            == PlaceSelection(SourceSpace(text), None, sel, IsStale(sel.fileVersion, current), Some((s, t)))
  {
    AroundComesBack(abc, SourceSpace(text), None, SelectionInput(sel, current), sel.quote, s, b, s, t);
    SelectionFrom(abc, SourceSpace(text), None, sel, current, Some((s, t)));
  }
}
