/**
 * What a cut inside a CR LF pair does to the events of a stream (live/src/lib/sse.ts): each chunk is normalised on
 * its own, so the pair becomes two line ends.
 */
module SseCuts {
  import opened Wrappers
  import opened Text
  import opened Sse

  // --- Blank lines between blocks -----------------------------------------------------------

  lemma LeadingLine(b: string)
    ensures Split("\n" + b) == [""] + Split(b)
    ensures BlockEvents(Split("\n" + b), "", []) == BlockEvents(Split(b), "", [])
  {
    MatchesChar("\n" + b, '\n', 0);
    IndexOfIs("\n" + b, "\n", 0, 0);
    assert ("\n" + b)[..0] == "" && ("\n" + b)[1..] == b;
    SkippedLine(Split(b));
  }

  /** An empty line in a block says nothing. */
  lemma SkippedLine(lines: seq<string>)
    ensures BlockEvents([""] + lines, "", []) == BlockEvents(lines, "", [])
  {
    assert ([""] + lines)[1..] == lines;
    NoIndexOfChar("", ':');
    assert Field("") == "";
  }

  lemma BlankFromNewline(y: string)
    requires y != "" ==> y[0] != '\n'
    ensures IndexOf("\n" + y, BLANK, 0) == if IndexOf(y, BLANK, 0) < 0 then -1 else IndexOf(y, BLANK, 0) + 1
  {
    var s, e := "\n" + y, IndexOf(y, BLANK, 0);
    forall i | 0 <= i ensures MatchesAt(s, BLANK, i + 1) <==> MatchesAt(y, BLANK, i) {
      MatchesPair(s, '\n', '\n', i + 1);
      MatchesPair(y, '\n', '\n', i);
    }
    MatchesPair(s, '\n', '\n', 0);
    assert !MatchesAt(s, BLANK, 0);
    if e < 0 {
      forall i | 0 <= i ensures !MatchesAt(s, BLANK, i) {
        if i > 0 {
          assert !MatchesAt(y, BLANK, i - 1);
        }
      }
      IndexOfNone(s, BLANK, 0);
    } else {
      forall i | 0 <= i < e + 1 ensures !MatchesAt(s, BLANK, i) {
        if i > 0 {
          assert !MatchesAt(y, BLANK, i - 1);
        }
      }
      assert MatchesAt(s, BLANK, e + 1);
      IndexOfIs(s, BLANK, 0, e + 1);
    }
  }

  lemma SlicesBehind(x: string, y: string, e: nat)
    requires e + 2 <= |y|
    ensures (x + y)[..|x| + e] == x + y[..e] && (x + y)[|x| + e + 2..] == y[e + 2..]
  {
  }

  /** A line end before a block changes no event. */
  lemma {:induction false} LeadingNewline(y: string)
    ensures Drain("\n" + y).0 == Drain(y).0
    decreases |y|
  {
    if y != "" && y[0] == '\n' {
      PairFirst(y[1..]);
      LeadingNewline(y[1..]);
      assert y == "\n" + y[1..];
    } else {
      var e := IndexOf(y, BLANK, 0);
      BlankFromNewline(y);
      if e >= 0 {
        DrainAt(y, e, y[..e], y[e + 2..]);
        SlicesBehind("\n", y, e);
        DrainAt("\n" + y, e + 1, "\n" + y[..e], y[e + 2..]);
        LeadingLine(y[..e]);
      }
    }
  }

  /** Two line ends are an empty block. */
  lemma PairFirst(z: string)
    ensures Drain("\n" + ("\n" + z)).0 == Drain(z).0
  {
    var s := "\n" + ("\n" + z);
    MatchesPair(s, '\n', '\n', 0);
    IndexOfIs(s, BLANK, 0, 0);
    assert s[..0] == "" && s[2..] == z;
    DrainAt(s, 0, "", z);
    NoIndexOfChar("", '\n');
    SkippedLine([]);
    assert [""] + [] == [""] && [] + Drain(z).0 == Drain(z).0;
  }

  // --- The cut ------------------------------------------------------------------------------------

  /** The text of a block, its last line end included, that is not complete yet. */
  predicate MidBlock(rest: string) {
    rest != "" && rest != "\n"
  }

  lemma EndsWithCr(a: string)
    ensures ToLf(a + "\r") == ToLf(a) + "\n"
  {
    ToLfAppend(a, "\r");
    assert "\r"[1..] == "" && ToLf("\r") == "\n" + "";
  }

  lemma StartsWithPair(b: string)
    ensures ToLf("\r" + ("\n" + b)) == "\n" + ToLf(b) == ToLf("\n" + b)
  {
    assert ("\r" + ("\n" + b))[2..] == b && ("\n" + b)[1..] == b;
  }

  /** What a pair of line ends becomes when the cut is inside it, and when it is not. */
  lemma CutPair(a: string, b: string)
    requires SplitsCrLf(a, b)
    ensures ToLf(a) != "" && ToLf(a)[|ToLf(a)| - 1] == '\n'
    ensures ToLf(b) == "\n" + ToLf(b[1..])
    ensures ToLf(a + b) == ToLf(a) + ToLf(b[1..])
  {
    var a0, b1 := a[..|a| - 1], b[1..];
    assert a == a0 + "\r" && b == "\n" + b1;
    EndsWithCr(a0);
    StartsWithPair(b1);
    Regroup(a0, "\r", b);
    ToLfAppend(a0, "\r" + b);
    Regroup(ToLf(a0), "\n", ToLf(b1));
  }

  /** What is left over is the end of what was fed. */
  lemma {:induction false} LeftoverIsEnd(b: string)
    ensures |Drain(b).1| <= |b| && b[|b| - |Drain(b).1|..] == Drain(b).1
    decreases |b|
  {
    var end := IndexOf(b, BLANK, 0);
    if end >= 0 {
      LeftoverIsEnd(b[end + 2..]);
      EndOfEnd(b, end + 2, |Drain(b).1|);
    }
  }

  lemma EndOfEnd(s: string, m: nat, k: nat)
    requires m <= |s| && k <= |s| - m
    ensures s[m..][|s| - m - k..] == s[|s| - k..]
  {
  }

  /** A block that the cut closes is handed on as it stands. */
  lemma ClosedBlock(w: string, y: string)
    requires w != "" && IndexOf(w + "\n", BLANK, 0) < 0
    ensures Drain((w + "\n") + ("\n" + y)).0 == BlockEvents(Split(w), "", []) + Drain(y).0
  {
    var s := (w + "\n") + ("\n" + y);
    forall i | 0 <= i < |w| ensures !MatchesAt(s, BLANK, i) {
      assert !MatchesAt(w + "\n", BLANK, i);
      MatchesPair(w + "\n", '\n', '\n', i);
      MatchesPair(s, '\n', '\n', i);
    }
    MatchesPair(s, '\n', '\n', |w|);
    IndexOfIs(s, BLANK, 0, |w|);
    assert s[..|w|] == w && s[|w| + 2..] == y;
  }

  /** What is left over of a first chunk that ends with a line end. */
  lemma LeftoverShape(a: string, rest: string)
    requires a != "" && a[|a| - 1] == '\n' && rest == Drain(a).1
    ensures rest != "" ==> rest[|rest| - 1] == '\n' && IndexOf(rest, BLANK, 0) < 0
  {
    LeftoverIsEnd(a);
    LeftoverIncomplete(a);
    if rest != "" {
      EndChar(a, rest);
    }
  }

  lemma EndChar(a: string, rest: string)
    requires |rest| <= |a| && a[|a| - |rest|..] == rest != ""
    ensures rest[|rest| - 1] == a[|a| - 1]
  {
  }

  /** The lines of a block that is not complete, without its last line end. */
  function Lines(rest: string): seq<string>
    requires rest != ""
  {
    Split(rest[..|rest| - 1])
  }

  /** What the end of a block hands on when only part of the block has been read. */
  function Closing(rest: string): seq<Event> {
    if MidBlock(rest) then BlockEvents(Lines(rest), "", []) else []
  }

  /**
   * The events of a cut inside a CR LF pair, and of the same stream uncut: a block that the cut falls into is closed by
   * it and handed on as it stands.
   */
  lemma SplitCutEvents(a: string, b: string, rest: string, y: string)
    requires SplitsCrLf(a, b) && rest == Drain(ToLf(a)).1 && y == ToLf(b[1..])
    ensures FeedAll("", [a, b]).0 == Drain(ToLf(a)).0 + (Closing(rest) + Drain(y).0)
    ensures Drain(ToLf(a + b)).0 == Drain(ToLf(a)).0 + Drain(rest + y).0
  {
    CutPair(a, b);
    TwoChunks(a, b);
    CutAfter(ToLf(a), y, rest);
  }

  lemma CutAfter(x: string, y: string, rest: string)
    requires x != "" && x[|x| - 1] == '\n' && rest == Drain(x).1
    ensures Drain(x + y).0 == Drain(x).0 + Drain(rest + y).0
    ensures Drain(rest + ("\n" + y)).0 == Closing(rest) + Drain(y).0
  {
    DrainAppend(x, y);
    LeftoverShape(x, rest);
    AfterLeftover(rest, y);
  }

  lemma AfterLeftover(rest: string, y: string)
    requires rest != "" ==> rest[|rest| - 1] == '\n' && IndexOf(rest, BLANK, 0) < 0
    ensures Drain(rest + ("\n" + y)).0 == Closing(rest) + Drain(y).0
  {
    if rest == "" {
      assert rest + ("\n" + y) == "\n" + y;
      LeadingNewline(y);
    } else if rest == "\n" {
      LeadingNewline("\n" + y);
      LeadingNewline(y);
    } else {
      assert rest == rest[..|rest| - 1] + "\n";
      ClosedBlock(rest[..|rest| - 1], y);
    }
  }

  lemma TwoChunks(a: string, b: string)
    ensures FeedAll("", [a, b]).0 == Drain(ToLf(a)).0 + Drain(Drain(ToLf(a)).1 + ToLf(b)).0
  {
    var chunks, first := [a, b], Drain(ToLf(a));
    assert chunks[1..] == [b] && [b][1..] == [];
    assert "" + ToLf(a) == ToLf(a);
    var second := Drain(first.1 + ToLf(b));
    assert FeedAll(second.1, []) == ([], second.1);
    assert second.0 + [] == second.0;
    assert FeedAll(first.1, [b]) == second;
  }

  // --- When the cut changes the events ------------------------------------------------------------------

  function Remarks(lines: seq<string>): seq<Event> {
    if lines == [] then []
    else (if lines[0] != "" && lines[0][0] == ':' then [Comment(lines[0][1..])] else []) + Remarks(lines[1..])
  }

  /** The event name and the data gathered. */
  datatype Gathered = Gathered(event: string, data: seq<string>)

  const Empty := Gathered("", [])

  function Gather(line: string, g: Gathered): Gathered {
    if line != "" && line[0] == ':' then g
    else if Field(line) == "event" then g.(event := Value(line))
    else if Field(line) == "data" then g.(data := g.data + [Value(line)])
    else g
  }

  function Fields(lines: seq<string>, g: Gathered): Gathered
    decreases |lines|
  {
    if lines == [] then g else Fields(lines[1..], Gather(lines[0], g))
  }

  /** The frame handed on at the end of a block, if any. */
  function FrameOf(g: Gathered): seq<Event> {
    if g.event != "" || g.data != [] then [Frame(if g.event != "" then g.event else "message", Join(g.data))] else []
  }

  lemma {:induction false} BlockParts(lines: seq<string>, g: Gathered)
    ensures BlockEvents(lines, g.event, g.data) == Remarks(lines) + FrameOf(Fields(lines, g))
    ensures forall e | e in Remarks(lines) :: e.Comment?
    decreases |lines|
  {
    if lines != [] {
      BlockParts(lines[1..], Gather(lines[0], g));
    }
  }

  lemma {:induction false} PartsConcat(x: seq<string>, y: seq<string>, g: Gathered)
    ensures Remarks(x + y) == Remarks(x) + Remarks(y)
    ensures Fields(x + y, g) == Fields(y, Fields(x, g))
    decreases |x|
  {
    if x == [] {
      assert x + y == y;
    } else {
      assert (x + y)[1..] == x[1..] + y;
      PartsConcat(x[1..], y, Gather(x[0], g));
    }
  }

  /** Reading some lines of a block and then the others as blocks of their own makes no difference. */
  predicate Separable(x: seq<string>, y: seq<string>) {
    || FrameOf(Fields(x, Empty)) == []
    || (BlockEvents(y, "", []) == [] && FrameOf(Fields(x + y, Empty)) == FrameOf(Fields(x, Empty)))
  }

  lemma FirstIsRemark(r: seq<Event>, whole: seq<Event>, f: Event)
    requires f.Frame? && forall e | e in r :: e.Comment?
    ensures r != [] ==> (r + whole)[0] != f
  {
    if r != [] {
      assert r[0] in r;
    }
  }

  lemma MoveFrame(r: seq<Event>, f: seq<Event>, g: seq<Event>, whole: seq<Event>)
    requires |f| == 1 && f[0].Frame? && |g| <= 1 && |whole| <= 1 && forall e | e in r :: e.Comment?
    ensures r + whole == f + (r + g) <==> r == [] && g == [] && whole == f
  {
    if r + whole == f + (r + g) {
      assert |r| + |whole| == 1 + |r| + |g|;
      assert g == [] && |whole| == 1;
      FirstIsRemark(r, whole, f[0]);
      assert r == [] && [] + whole == whole && f + ([] + []) == f;
    }
  }

  lemma SeparableMeaning(x: seq<string>, y: seq<string>)
    ensures BlockEvents(x + y, "", []) == BlockEvents(x, "", []) + BlockEvents(y, "", []) <==> Separable(x, y)
  {
    var f, g, whole := FrameOf(Fields(x, Empty)), FrameOf(Fields(y, Empty)), FrameOf(Fields(x + y, Empty));
    var r := Remarks(y);
    BlockParts(x, Empty);
    BlockParts(y, Empty);
    BlockParts(x + y, Empty);
    PartsConcat(x, y, Empty);
    Regroup(Remarks(x), r, whole);
    Regroup(Remarks(x), f, r + g);
    SameTail(Remarks(x), r + whole, f + (r + g));
    if f == [] {
      assert whole == g && f + (r + g) == r + g;
    } else {
      MoveFrame(r, f, g, whole);
      assert r + g == [] <==> r == [] && g == [];
    }
  }

  lemma SameTail<T>(x: seq<T>, y: seq<T>, z: seq<T>)
    ensures x + y == x + z <==> y == z
  {
    if x + y == x + z {
      assert (x + y)[|x|..] == y && (x + z)[|x|..] == z;
    }
  }

  /** An open block that the next chunk goes on with ends at the first blank line of that chunk. */
  lemma OpenBlock(rest: string, y: string)
    requires MidBlock(rest) && rest[|rest| - 1] == '\n' && IndexOf(rest, BLANK, 0) < 0 && (y != "" ==> y[0] != '\n')
    ensures IndexOf(rest + y, BLANK, 0) == if IndexOf(y, BLANK, 0) < 0 then -1 else |rest| + IndexOf(y, BLANK, 0)
  {
    var s, e := rest + y, IndexOf(y, BLANK, 0);
    forall i | 0 <= i < |rest| ensures !MatchesAt(s, BLANK, i) {
      assert !MatchesAt(rest, BLANK, i);
      MatchesPair(rest, '\n', '\n', i);
      MatchesPair(s, '\n', '\n', i);
    }
    forall i | 0 <= i ensures MatchesAt(s, BLANK, |rest| + i) <==> MatchesAt(y, BLANK, i) {
      MatchesPair(s, '\n', '\n', |rest| + i);
      MatchesPair(y, '\n', '\n', i);
    }
    if e < 0 {
      forall i | 0 <= i ensures !MatchesAt(s, BLANK, i) {
        if i >= |rest| {
          assert !MatchesAt(y, BLANK, i - |rest|);
        }
      }
      IndexOfNone(s, BLANK, 0);
    } else {
      forall i | 0 <= i < |rest| + e ensures !MatchesAt(s, BLANK, i) {
        if i >= |rest| {
          assert !MatchesAt(y, BLANK, i - |rest|);
        }
      }
      assert MatchesAt(s, BLANK, |rest| + e);
      IndexOfIs(s, BLANK, 0, |rest| + e);
    }
  }

  lemma {:induction false} SplitLines(w: string, z: string)
    ensures Split(w + "\n" + z) == Split(w) + Split(z)
    decreases |w|
  {
    var s, i := w + "\n" + z, IndexOf(w, "\n", 0);
    if i < 0 {
      forall k | 0 <= k < |w| ensures w[k] != '\n' {
        MatchesChar(w, '\n', k);
        assert !MatchesAt(w, "\n", k);
      }
      assert '\n' !in w;
      IndexOfChar(w, '\n', z);
      assert s[..|w|] == w && s[|w| + 1..] == z;
    } else {
      forall k | 0 <= k < i ensures !MatchesAt(s, "\n", k) {
        MatchesChar(w, '\n', k);
        MatchesChar(s, '\n', k);
        assert !MatchesAt(w, "\n", k);
      }
      MatchesChar(w, '\n', i);
      MatchesChar(s, '\n', i);
      IndexOfIs(s, "\n", 0, i);
      assert s[..i] == w[..i] && s[i + 1..] == w[i + 1..] + "\n" + z;
      SplitLines(w[i + 1..], z);
      Regroup([w[..i]], Split(w[i + 1..]), Split(z));
    }
  }

  /** The first chunk leaves a block open, and the second goes on with it. */
  predicate Interrupts(rest: string, y: string) {
    MidBlock(rest) && !(y != "" && y[0] == '\n')
  }

  /** The rest of the interrupted block, if it is complete. */
  function Remainder(y: string): Option<string> {
    var e := IndexOf(y, BLANK, 0);
    if e < 0 then None else Some(y[..e])
  }

  /** The events of an interrupted block that is completed, whole and as the part behind the cut, and those after it. */
  lemma InterruptedEvents(rest: string, y: string) returns (z: seq<string>, more: seq<Event>)
    requires Interrupts(rest, y) && rest[|rest| - 1] == '\n' && IndexOf(rest, BLANK, 0) < 0 && Remainder(y).Some?
    ensures z == Split(Remainder(y).value)
    ensures Drain(rest + y).0 == BlockEvents(Lines(rest) + z, "", []) + more
    ensures Drain(y).0 == BlockEvents(z, "", []) + more
  {
    OpenBlock(rest, y);
    var e := IndexOf(y, BLANK, 0);
    z, more := Split(y[..e]), Drain(y[e + 2..]).0;
    SlicesBehind(rest, y, e);
    DrainAt(y, e, y[..e], y[e + 2..]);
    DrainAt(rest + y, |rest| + e, rest + y[..e], y[e + 2..]);
    JoinedLines(rest, y[..e]);
  }

  lemma NotCompleted(rest: string, y: string)
    requires Interrupts(rest, y) && rest[|rest| - 1] == '\n' && IndexOf(rest, BLANK, 0) < 0 && Remainder(y).None?
    ensures Drain(rest + y).0 == [] && Drain(y).0 == []
  {
    OpenBlock(rest, y);
  }

  lemma JoinedLines(rest: string, z: string)
    requires rest != "" && rest[|rest| - 1] == '\n'
    ensures Split(rest + z) == Lines(rest) + Split(z)
  {
    var w := rest[..|rest| - 1];
    assert rest == w + "\n";
    SplitLines(w, z);
  }

  /** Closing the block early hands on what the whole block would. */
  predicate ClosesEarly(rest: string, y: string)
    requires rest != ""
  {
    match Remainder(y)
    case None => BlockEvents(Lines(rest), "", []) == []
    case Some(z) => Separable(Lines(rest), Split(z))
  }

  /**
   * A cut inside a CR LF pair changes the events exactly when it interrupts a block whose lines so far and whose other
   * lines do not say the same apart as together: at the end of a block, or between blocks, it is harmless.
   */
  lemma SplitCutHarmless(a: string, b: string, rest: string, y: string)
    requires SplitsCrLf(a, b) && rest == Drain(ToLf(a)).1 && y == ToLf(b[1..])
    ensures FeedAll("", [a, b]).0 == Drain(ToLf(a + b)).0 <==> (Interrupts(rest, y) ==> ClosesEarly(rest, y))
  {
    SplitCutEvents(a, b, rest, y);
    LeftoverBefore(a, b, rest);
    LeftoverHarmless(rest, y);
    SameTail(Drain(ToLf(a)).0, Closing(rest) + Drain(y).0, Drain(rest + y).0);
  }

  lemma LeftoverBefore(a: string, b: string, rest: string)
    requires SplitsCrLf(a, b) && rest == Drain(ToLf(a)).1
    ensures rest != "" ==> rest[|rest| - 1] == '\n' && IndexOf(rest, BLANK, 0) < 0
  {
    CutPair(a, b);
    LeftoverShape(ToLf(a), rest);
  }

  lemma LeftoverHarmless(rest: string, y: string)
    requires rest != "" ==> rest[|rest| - 1] == '\n' && IndexOf(rest, BLANK, 0) < 0
    ensures Closing(rest) + Drain(y).0 == Drain(rest + y).0 <==> (Interrupts(rest, y) ==> ClosesEarly(rest, y))
  {
    if Interrupts(rest, y) {
      Interrupted(rest, y);
    } else {
      Uninterrupted(rest, y);
    }
  }

  lemma Interrupted(rest: string, y: string)
    requires Interrupts(rest, y) && rest[|rest| - 1] == '\n' && IndexOf(rest, BLANK, 0) < 0
    ensures Closing(rest) + Drain(y).0 == Drain(rest + y).0 <==> ClosesEarly(rest, y)
  {
    if Remainder(y).None? {
      NotCompleted(rest, y);
    } else {
      var z, more := InterruptedEvents(rest, y);
      PartsOrWhole(Lines(rest), z, more);
    }
  }

  lemma PartsOrWhole(x: seq<string>, z: seq<string>, more: seq<Event>)
    ensures BlockEvents(x, "", []) + (BlockEvents(z, "", []) + more) == BlockEvents(x + z, "", []) + more <==> Separable(x, z)
  {
    SeparableMeaning(x, z);
    Regroup(BlockEvents(x, "", []), BlockEvents(z, "", []), more);
    SameHead(BlockEvents(x, "", []) + BlockEvents(z, "", []), BlockEvents(x + z, "", []), more);
  }

  lemma SameHead<T>(x: seq<T>, y: seq<T>, z: seq<T>)
    ensures x + z == y + z <==> x == y
  {
    if x + z == y + z {
      assert |x| == |y|;
      assert (x + z)[..|x|] == x && (y + z)[..|x|] == y;
    }
  }

  lemma Uninterrupted(rest: string, y: string)
    requires !Interrupts(rest, y) && (rest != "" ==> rest[|rest| - 1] == '\n' && IndexOf(rest, BLANK, 0) < 0)
    ensures Closing(rest) + Drain(y).0 == Drain(rest + y).0
  {
    if rest == "" {
      assert rest + y == y;
    } else if rest == "\n" {
      LeadingNewline(y);
    } else {
      var w := rest[..|rest| - 1];
      assert rest == w + "\n" && y == "\n" + y[1..];
      ClosedBlock(w, y[1..]);
      LeadingNewline(y[1..]);
    }
  }
}
