/**
 * Texts in which the very place a quote was taken from conflicts with the context saved with it: where the
 * conditions of `OwnContext.OwnPlaceAgrees` and of `Anchor.CaptureThenResolve` fail
 * (live/src/lib/comment-anchor.ts, `contextMatch` and `captureQuote`; live/src/lib/presence.ts, `caretQuote`).
 */
module CaptureLimits {
  import opened Wrappers
  import opened Text
  import opened Normalization
  import opened Candidates
  import opened Context
  import opened OwnContext
  import opened Anchor
  import opened Presence

  /** Small letters are the only letters, and lower-case to themselves. */
  function SmallLetters(): Alphabet {
    Alphabet((c: char) => [c], (c: char) => 'a' <= c <= 'z')
  }

  function Run(c: char, n: nat): (r: string)
    ensures |r| == n && forall i | 0 <= i < n :: r[i] == c
  {
    seq(n, _ => c)
  }

  lemma {:induction false} KeyOfRun(c: char, n: nat)
    requires 'a' <= c <= 'z'
    ensures ContextKey(SmallLetters(), Run(c, n)) == Run(c, n)
  {
    if n > 0 {
      assert Run(c, n)[1..] == Run(c, n - 1) && Run(c, n) == [c] + Run(c, n - 1);
      KeyOfRun(c, n - 1);
      LettersConcat(SmallLetters(), [c], RemoveTargets(Run(c, n - 1)));
      assert [c][1..] == "" && KeepAlnum(SmallLetters(), [c]) == [c] + "";
      assert Letters(SmallLetters(), [c]) == [c] + "";
    }
  }

  lemma SmallMarks()
    ensures MarksDropped(SmallLetters())
  {
    forall c: char | IsSpace(c) || c == ']' ensures KeepAlnum(SmallLetters(), SmallLetters().lower(c)) == "" {
      assert [c][1..] == "";
    }
  }

  /** Nothing found matches nothing. */
  lemma NothingMatches(want: string, side: Side)
    ensures SideMatch(want, "", side) == 0
  {
    var a, b :| 0 <= a <= CONTEXT_SKIP && 0 <= b <= CONTEXT_SKIP && SkipMatch(want, "", side, a, b) == SideMatch(want, "", side);
  }

  lemma SideConflicts(abc: Alphabet, text: string, c: Candidate, quote: Quote, side: Side)
    requires Saved(quote, side) != "" && |ContextKey(abc, Saved(quote, side))| >= CONTEXT_MIN
    requires SideMatch(ContextKey(abc, Saved(quote, side)), ContextKey(abc, Window(text, c, quote, side)), side) == 0
    ensures Conflicts(abc, text, c, quote)
  {
  }

  // --- A prefix that begins inside a link -----------------------------------------------------

  lemma {:induction false} TargetOfRun(n: nat)
    ensures AfterTarget(Run('a', n) + ")") == ""
  {
    if n > 0 {
      assert (Run('a', n) + ")")[1..] == Run('a', n - 1) + ")";
      TargetOfRun(n - 1);
    }
  }

  /** A link with a target of `n` letters, and a quote right after it. */
  function LinkText(n: nat): string {
    "](" + Run('a', n) + ")" + "q"
  }

  lemma LinkQuote(n: nat)
    requires 32 <= n <= 93
    ensures CaptureQuote(LinkText(n), n + 3, n + 4) == Some(Quote("q", Run('a', 31) + ")", ""))
  {
    var text := LinkText(n);
    assert SkipBlanks(text, n + 3, n + 4) == n + 3;
    assert BackOverBlanks(text, n + 3, n + 4) == n + 4;
    assert text[n - 29..n + 3] == Run('a', 31) + ")";
    assert text[n + 3..n + 4] == "q" && text[n + 4..n + 4] == "";
  }

  /** The saved prefix keeps the letters of the target, which the window around the place removes. */
  lemma LinkCutConflicts(n: nat)
    requires 32 <= n <= 93
    ensures CaptureQuote(LinkText(n), n + 3, n + 4).Some?
    ensures Conflicts(SmallLetters(), LinkText(n), Candidate(n + 3, n + 4, true), CaptureQuote(LinkText(n), n + 3, n + 4).value)
  {
    var text, c, quote := LinkText(n), Candidate(n + 3, n + 4, true), Quote("q", Run('a', 31) + ")", "");
    var window := "](" + (Run('a', n) + ")");
    LinkQuote(n);
    SliceClamped(text, 0, n + 3);
    assert Window(text, c, quote, Prefix) == window;
    assert window[2..] == Run('a', n) + ")";
    TargetOfRun(n);
    SmallMarks();
    var k := KeyAppend(SmallLetters(), Run('a', 31), ")");
    KeyOfRun('a', 31);
    NothingMatches(ContextKey(SmallLetters(), quote.prefix), Prefix);
    SideConflicts(SmallLetters(), text, c, quote, Prefix);
  }

  // --- A selection of more than 2000 characters -------------------------------------------------

  lemma DifferentRuns(c: char, n: nat, d: char, m: nat)
    requires c != d
    ensures SideMatch(Run(c, n), Run(d, m), Suffix) == 0
  {
    var want, got := Run(c, n), Run(d, m);
    var a, b :| 0 <= a <= CONTEXT_SKIP && 0 <= b <= CONTEXT_SKIP && SkipMatch(want, got, Suffix, a, b) == SideMatch(want, got, Suffix);
    var x, y := Slice(want, a, |want|), Slice(got, b, |got|);
    assert x != "" ==> x[0] == c;
    assert y != "" ==> y[0] == d;
  }

  function LongText(): string {
    Run('a', 2000) + Run('b', 100) + Run('c', 32)
  }

  /** The quote is cut after 2000 characters, but its suffix is what follows the whole selection. */
  lemma LongSelectionConflicts()
    ensures CaptureQuote(LongText(), 0, 2100).Some?
    ensures Conflicts(SmallLetters(), LongText(), Candidate(0, 2000, true), CaptureQuote(LongText(), 0, 2100).value)
  {
    var text, c := LongText(), Candidate(0, 2000, true);
    assert text[0] == 'a' && text[2099] == 'b';
    assert SkipBlanks(text, 0, 2100) == 0 && BackOverBlanks(text, 0, 2100) == 2100;
    var quote := CaptureQuote(text, 0, 2100).value;
    SliceClamped(text, 2000, 2096);
    assert quote.suffix == text[2100..2132] == Run('c', 32);
    assert Window(text, c, quote, Suffix) == text[2000..2096] == Run('b', 96);
    KeyOfRun('c', 32);
    KeyOfRun('b', 96);
    DifferentRuns('c', 32, 'b', 96);
    SideConflicts(SmallLetters(), text, c, quote, Suffix);
  }

  // --- An occurrence beyond the cap -----------------------------------------------------------------

  lemma {:induction false} NormOfRun(abc: Alphabet, n: nat, k: nat)
    requires k <= n
    ensures NormalizeUpTo(abc, Run('a', n), Strict, k).norm == Run('a', k)
  {
    if k > 0 {
      NormOfRun(abc, n, k - 1);
      UpToStep(abc, Run('a', n), Strict, k);
      assert Run('a', k) == Run('a', k - 1) + ['a'];
    }
  }

  lemma {:induction false} OccurrencesInRun(n: nat, from: nat)
    requires from <= n
    ensures |Occurrences(Run('a', n), "a", from)| == n - from
    ensures forall j | 0 <= j < n - from :: Occurrences(Run('a', n), "a", from)[j] == from + j
    decreases n - from
  {
    if from < n {
      MatchesChar(Run('a', n), 'a', from);
      OccurrencesInRun(n, from + 1);
    }
  }

  lemma HitsInRun(hay: Normalized, n: nat)
    requires hay.norm == Run('a', n)
    ensures forall i | i in Hits(hay, "a") :: i < MAX_CANDIDATES
  {
    OccurrencesInRun(n, 0);
  }

  /** Of more than 500 equal letters, one behind the first 500 is not even listed for the quote it is. */
  lemma BeyondCapNotFound(abc: Alphabet, n: nat, s: nat)
    requires MAX_CANDIDATES <= s < n
    ensures Run('a', n)[s..s + 1] == "a"
    ensures Candidate(s, s + 1, true) !in FindQuote(abc, Run('a', n), "a")
  {
    var text := Run('a', n);
    assert text[s..s + 1] == "a";
    NormOfRun(abc, n, n);
    NormOfRun(abc, n, s);
    HitsInRun(Normalize(abc, text, Strict), n);
    LetterNeedle(abc);
    OwnPlaceCapped(abc, text, "a", s, s + 1);
  }

  lemma LetterNeedle(abc: Alphabet)
    ensures NormalizeNeedle(abc, "a", Strict) == "a"
  {
    assert "a"[0..1] == "a";
    NeedleOfSlice(abc, "a", 0, 1);
    NormOfRun(abc, 1, 1);
    assert Run('a', 1) == "a";
  }

  // --- A caret behind more blanks than its prefix lets the comparison read -------------------------

  function GapText(): string {
    "abc" + Run(' ', 23) + "x"
  }

  /** A prefix of three characters lets the comparison read back nine, all of them blanks. */
  lemma CaretGapConflicts()
    ensures CaretQuote(GapText(), 27).Some?
    ensures Conflicts(SmallLetters(), GapText(), Candidate(26, 27, true), CaretQuote(GapText(), 27).value)
  {
    var text, c := GapText(), Candidate(26, 27, true);
    assert !IsSpace(text[3..27][23]);
    assert CaretStart(text, 3, 27) == 3;
    var quote := CaretQuote(text, 27).value;
    SliceClamped(text, 17, 26);
    assert quote.prefix == text[0..3] == "abc";
    assert Window(text, c, quote, Prefix) == text[17..26] == Run(' ', 9);
    SmallMarks();
    BlanksBefore(SmallLetters(), Run(' ', 9), "");
    assert Run(' ', 9) + "" == Run(' ', 9);
    KeyOfAbc();
    NothingMatches("abc", Prefix);
    SideConflicts(SmallLetters(), text, c, quote, Prefix);
  }

  lemma KeyOfAbc()
    ensures ContextKey(SmallLetters(), "abc") == "abc"
  {
    assert "abc" == "a" + ("b" + "c");
    LettersConcat(SmallLetters(), "a", "b" + "c");
    LettersConcat(SmallLetters(), "b", "c");
    KeyOfRun('a', 1);
    KeyOfRun('b', 1);
    KeyOfRun('c', 1);
    assert Run('a', 1) == "a" && Run('b', 1) == "b" && Run('c', 1) == "c";
    assert "abc"[1..] == "bc" && "bc"[1..] == "c" && "c"[1..] == "";
    assert RemoveTargets("abc") == "a" + ("b" + ("c" + ""));
  }
}
