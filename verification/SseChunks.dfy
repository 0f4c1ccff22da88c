/**
 * The events of a stream that arrives in any number of chunks, with any of the cuts inside a CR LF pair
 * (live/src/lib/sse.ts).
 */
module SseChunks {
  import opened Wrappers
  import opened Text
  import opened Sse
  import opened SseCuts

  // --- The stream as the parser sees it ------------------------------------------------------

  /** Each chunk normalised on its own. */
  function ConcatLf(chunks: seq<string>): string {
    if chunks == [] then "" else ToLf(chunks[0]) + ConcatLf(chunks[1..])
  }

  /** Chunk by chunk the parser reads the chunks as it normalised them, however they are cut. */
  lemma {:induction false} FeedAllIsDrain(buffer: string, chunks: seq<string>)
    requires IndexOf(buffer, BLANK, 0) == -1
    ensures FeedAll(buffer, chunks) == Drain(buffer + ConcatLf(chunks))
    decreases |chunks|
  {
    if chunks == [] {
      assert buffer + "" == buffer;
    } else {
      var b, rest := buffer + ToLf(chunks[0]), ConcatLf(chunks[1..]);
      DrainAppend(b, rest);
      LeftoverIncomplete(b);
      FeedAllIsDrain(Drain(b).1, chunks[1..]);
      Regroup(buffer, ToLf(chunks[0]), rest);
    }
  }

  /** The stream cut only where a cut splits a pair. */
  function Segments(chunks: seq<string>): (r: seq<string>)
    ensures r != []
  {
    if chunks == [] then [""]
    else
      var rest := Segments(chunks[1..]);
      if SplitsCrLf(chunks[0], Concat(chunks[1..])) then [chunks[0]] + rest else [chunks[0] + rest[0]] + rest[1..]
  }

  /** Each segment ends inside a pair that the next one completes. */
  predicate Cut(first: string, segments: seq<string>)
    decreases |segments|
  {
    segments == [] || (SplitsCrLf(first, segments[0]) && Cut(segments[0], segments[1..]))
  }

  /** What is before the end of the first segment does not matter for where the segments are cut. */
  lemma CutLonger(c: string, first: string, segments: seq<string>)
    requires Cut(first, segments)
    ensures Cut(c + first, segments)
  {
  }

  lemma {:induction false} SegmentsCut(chunks: seq<string>)
    ensures Cut(Segments(chunks)[0], Segments(chunks)[1..])
    ensures Concat(chunks) == Segments(chunks)[0] + Concat(Segments(chunks)[1..])
    ensures Concat(chunks) != "" ==> Segments(chunks)[0] != ""
  {
    if chunks != [] {
      var c, rest, all := chunks[0], Segments(chunks[1..]), Concat(chunks[1..]);
      SegmentsCut(chunks[1..]);
      if SplitsCrLf(c, all) {
        assert ([c] + rest)[1..] == rest;
        assert rest[0][0] == all[0];
      } else {
        assert ([c + rest[0]] + rest[1..])[1..] == rest[1..];
        CutLonger(c, rest[0], rest[1..]);
        Regroup(c, rest[0], Concat(rest[1..]));
      }
    }
  }

  lemma {:induction false} SegmentsLf(chunks: seq<string>)
    ensures ConcatLf(chunks) == ToLf(Segments(chunks)[0]) + ConcatLf(Segments(chunks)[1..])
  {
    if chunks == [] {
      assert [""][1..] == [];
    } else {
      var c, rest, all := chunks[0], Segments(chunks[1..]), Concat(chunks[1..]);
      SegmentsLf(chunks[1..]);
      SegmentsCut(chunks[1..]);
      if SplitsCrLf(c, all) {
        assert ([c] + rest)[1..] == rest;
      } else {
        assert ([c + rest[0]] + rest[1..])[1..] == rest[1..];
        assert rest[0] != "" ==> rest[0][0] == all[0];
        ToLfAppend(c, rest[0]);
        Regroup(ToLf(c), ToLf(rest[0]), ConcatLf(rest[1..]));
      }
    }
  }

  /** A segment behind a cut, without the line feed that the pair begun before it already gave. */
  function After(segment: string): string {
    ToLf(if segment == "" then "" else segment[1..])
  }

  /** What the later segments are in the stream that was not cut. */
  function Uncut(segments: seq<string>): string {
    if segments == [] then "" else After(segments[0]) + Uncut(segments[1..])
  }

  /** Behind its first character a segment that is cut at its end is still cut there. */
  lemma CutTail(first: string, segments: seq<string>)
    requires segments != [] && Cut(first, segments)
    ensures SplitsCrLf(first, segments[0]) && Cut(segments[0][1..], segments[1..])
  {
  }

  lemma {:induction false} UncutIsWhole(first: string, segments: seq<string>)
    requires Cut(first, segments)
    ensures ToLf(first + Concat(segments)) == ToLf(first) + Uncut(segments)
    decreases |segments|
  {
    if segments == [] {
      assert first + "" == first;
    } else {
      var b, rest := segments[0], segments[1..];
      CutTail(first, segments);
      CutPair(first, b + Concat(rest));
      assert (b + Concat(rest))[1..] == b[1..] + Concat(rest);
      UncutIsWhole(b[1..], rest);
    }
  }

  // --- The events --------------------------------------------------------------------------------

  /** Each cut closes the block that is open, hands it on as it stands, and reading starts afresh behind the pair. */
  function EventsFrom(x: string, segments: seq<string>): seq<Event>
    decreases |segments|
  {
    if segments == [] then Drain(x).0
    else Drain(x).0 + (Closing(Drain(x).1) + EventsFrom(After(segments[0]), segments[1..]))
  }

  lemma {:induction false} FedEvents(first: string, segments: seq<string>, x: string)
    requires Cut(first, segments) && x == ToLf(first)
    ensures Drain(x + ConcatLf(segments)).0 == EventsFrom(x, segments)
    decreases |segments|
  {
    if segments == [] {
      assert x + "" == x;
    } else {
      var b, rest := segments[0], segments[1..];
      var y := After(b) + ConcatLf(rest);
      CutTail(first, segments);
      CutPair(first, b);
      Regroup("\n", After(b), ConcatLf(rest));
      DrainAppend(x, "\n" + y);
      CutAfter(x, y, Drain(x).1);
      FedEvents(b[1..], rest, After(b));
    }
  }

  /** The events of any chunks, and those of the same stream uncut. */
  lemma ChunkEvents(chunks: seq<string>, first: string, segments: seq<string>)
    requires [first] + segments == Segments(chunks)
    ensures FeedAll("", chunks).0 == EventsFrom(ToLf(first), segments)
    ensures Drain(ToLf(Concat(chunks))).0 == Drain(ToLf(first) + Uncut(segments)).0
  {
    assert Segments(chunks)[0] == first && Segments(chunks)[1..] == segments;
    SegmentsCut(chunks);
    FeedAllIsDrain("", chunks);
    assert "" + ConcatLf(chunks) == ConcatLf(chunks);
    SegmentsLf(chunks);
    FedEvents(first, segments, ToLf(first));
    UncutIsWhole(first, segments);
  }

  // --- When the cuts change the events ---------------------------------------------------------------

  function Frames(events: seq<Event>): nat {
    if events == [] then 0 else (if events[0].Frame? then 1 else 0) + Frames(events[1..])
  }

  lemma {:induction false} FramesConcat(x: seq<Event>, y: seq<Event>)
    ensures Frames(x + y) == Frames(x) + Frames(y)
  {
    if x == [] {
      assert x + y == y;
    } else {
      assert (x + y)[1..] == x[1..] + y;
      FramesConcat(x[1..], y);
    }
  }

  lemma {:induction false} NoFrames(events: seq<Event>)
    requires forall e | e in events :: e.Comment?
    ensures Frames(events) == 0
  {
    if events != [] {
      assert events[0] in events;
      NoFrames(events[1..]);
    }
  }

  /** A block hands on one frame at most. */
  lemma BlockFrames(lines: seq<string>)
    ensures Frames(BlockEvents(lines, "", [])) == |FrameOf(Fields(lines, Empty))| <= 1
  {
    var f := FrameOf(Fields(lines, Empty));
    BlockParts(lines, Empty);
    NoFrames(Remarks(lines));
    FramesConcat(Remarks(lines), f);
    assert f == [] || (f == [f[0]] && f[1..] == []);
  }

  /** Reading a block in two parts loses no frame. */
  lemma PartsFrames(x: seq<string>, y: seq<string>)
    ensures Frames(BlockEvents(x + y, "", [])) <= Frames(BlockEvents(x, "", [])) + Frames(BlockEvents(y, "", []))
  {
    BlockFrames(x);
    BlockFrames(y);
    BlockFrames(x + y);
    PartsConcat(x, y, Empty);
  }

  predicate LeftOver(rest: string) {
    rest != "" ==> rest[|rest| - 1] == '\n' && IndexOf(rest, BLANK, 0) < 0
  }

  lemma FramesAdd(x: seq<Event>, whole: seq<Event>, z: seq<Event>, more: seq<Event>)
    requires Frames(whole) <= Frames(x) + Frames(z)
    ensures Frames(whole + more) <= Frames(x) + Frames(z + more)
  {
    FramesConcat(whole, more);
    FramesConcat(z, more);
  }

  lemma CutFrames(rest: string, y: string)
    requires LeftOver(rest)
    ensures Frames(Drain(rest + y).0) <= Frames(Closing(rest)) + Frames(Drain(y).0)
  {
    if !Interrupts(rest, y) {
      Uninterrupted(rest, y);
      FramesConcat(Closing(rest), Drain(y).0);
    } else if Remainder(y).None? {
      NotCompleted(rest, y);
    } else {
      var z, more := InterruptedEvents(rest, y);
      PartsFrames(Lines(rest), z);
      FramesAdd(BlockEvents(Lines(rest), "", []), BlockEvents(Lines(rest) + z, "", []), BlockEvents(z, "", []), more);
    }
  }

  lemma {:induction false} MoreFrames(first: string, segments: seq<string>, x: string)
    requires Cut(first, segments) && x == ToLf(first)
    ensures Frames(EventsFrom(x, segments)) >= Frames(Drain(x + Uncut(segments)).0)
    decreases |segments|
  {
    if segments == [] {
      assert x + "" == x;
    } else {
      var b, rest := segments[0], segments[1..];
      var y := After(b) + Uncut(rest);
      CutTail(first, segments);
      LeftoverBefore(first, b, Drain(x).1);
      MoreFrames(b[1..], rest, After(b));
      CutFrames(Drain(x).1, y);
      DrainAppend(x, y);
      FramesConcat(Drain(x).0, Drain(Drain(x).1 + y).0);
      FramesConcat(Closing(Drain(x).1), EventsFrom(After(b), rest));
      FramesConcat(Drain(x).0, Closing(Drain(x).1) + EventsFrom(After(b), rest));
    }
  }

  /** An early frame in place of a block's own: what follows the block is the same. */
  lemma EarlyFrame(r: seq<Event>, f: seq<Event>, s: seq<Event>, whole: seq<Event>, more: seq<Event>, events: seq<Event>)
    requires |f| == |whole| == 1 && f[0].Frame? && forall e | e in s :: e.Comment?
    requires (r + f) + events == (r + (s + whole)) + more
    ensures s == [] && events == more
  {
    Regroup(r, f, events);
    Regroup(r, s + whole, more);
    SameTail(r, f + events, (s + whole) + more);
    Regroup(s, whole, more);
    FirstIsRemark(s, whole + more, f[0]);
    assert s + (whole + more) == f + events && (f + events)[0] == f[0];
    assert [] + (whole + more) == whole + more;
    assert (f + events)[1..] == events && (whole + more)[1..] == more;
  }

  /** Whatever is read behind a cut, with no fewer frames: if the cut makes no difference, it is what is read uncut. */
  lemma SameBehind(rest: string, y: string, events: seq<Event>)
    requires LeftOver(rest) && Frames(events) >= Frames(Drain(y).0)
    requires Closing(rest) + events == Drain(rest + y).0
    ensures events == Drain(y).0
  {
    FramesConcat(Closing(rest), events);
    CutFrames(rest, y);
    if Interrupts(rest, y) {
      SameBehindInterrupted(rest, y, events);
    } else {
      Uninterrupted(rest, y);
      SameTail(Closing(rest), events, Drain(y).0);
    }
  }

  lemma SameBehindInterrupted(rest: string, y: string, events: seq<Event>)
    requires Interrupts(rest, y) && LeftOver(rest) && Frames(events) == Frames(Drain(y).0)
    requires Closing(rest) + events == Drain(rest + y).0
    ensures events == Drain(y).0
  {
    if Remainder(y).None? {
      NotCompleted(rest, y);
      assert Closing(rest) + events == [];
    } else {
      var x := Lines(rest);
      var z, more := InterruptedEvents(rest, y);
      FramesCancel(BlockEvents(x, "", []), events, BlockEvents(x + z, "", []), BlockEvents(z, "", []), more);
      SameBehindBlock(x, z, more, events);
    }
  }

  lemma FramesCancel(x: seq<Event>, events: seq<Event>, whole: seq<Event>, z: seq<Event>, more: seq<Event>)
    requires x + events == whole + more && Frames(events) == Frames(z + more)
    ensures Frames(whole) == Frames(x) + Frames(z)
  {
    FramesConcat(x, events);
    FramesConcat(whole, more);
    FramesConcat(z, more);
  }

  lemma SameBehindBlock(x: seq<string>, z: seq<string>, more: seq<Event>, events: seq<Event>)
    requires BlockEvents(x, "", []) + events == BlockEvents(x + z, "", []) + more
    requires Frames(BlockEvents(x + z, "", [])) == Frames(BlockEvents(x, "", [])) + Frames(BlockEvents(z, "", []))
    ensures events == BlockEvents(z, "", []) + more
  {
    var f, g, whole := FrameOf(Fields(x, Empty)), FrameOf(Fields(z, Empty)), FrameOf(Fields(x + z, Empty));
    BlockFrames(x);
    BlockFrames(z);
    BlockFrames(x + z);
    BlockParts(x, Empty);
    BlockParts(z, Empty);
    BlockParts(x + z, Empty);
    PartsConcat(x, z, Empty);
    if f == [] {
      assert Remarks(x) + f == Remarks(x);
      Regroup(Remarks(x), Remarks(z), whole);
      Regroup(Remarks(x), Remarks(z) + whole, more);
      SameTail(Remarks(x), events, (Remarks(z) + whole) + more);
    } else {
      Regroup(Remarks(x), Remarks(z), whole);
      EarlyFrame(Remarks(x), f, Remarks(z), whole, more, events);
      assert Remarks(z) + g == [] && [] + more == more;
    }
  }

  /** No cut interrupts a block whose parts do not say the same apart as together. */
  predicate Harmless(x: string, segments: seq<string>)
    decreases |segments|
  {
    segments == []
    || (var rest, y := Drain(x).1, After(segments[0]) + Uncut(segments[1..]);
        (Interrupts(rest, y) ==> ClosesEarly(rest, y)) && Harmless(After(segments[0]), segments[1..]))
  }

  lemma {:induction false} CutsHarmless(first: string, segments: seq<string>, x: string)
    requires Cut(first, segments) && x == ToLf(first)
    ensures EventsFrom(x, segments) == Drain(x + Uncut(segments)).0 <==> Harmless(x, segments)
    decreases |segments|
  {
    if segments == [] {
      assert x + "" == x;
    } else {
      var b, more := segments[0], segments[1..];
      var rest, y, events := Drain(x).1, After(b) + Uncut(more), EventsFrom(After(b), more);
      CutTail(first, segments);
      LeftoverBefore(first, b, rest);
      DrainAppend(x, y);
      SameTail(Drain(x).0, Closing(rest) + events, Drain(rest + y).0);
      LeftoverHarmless(rest, y);
      CutsHarmless(b[1..], more, After(b));
      MoreFrames(b[1..], more, After(b));
      if Closing(rest) + events == Drain(rest + y).0 {
        SameBehind(rest, y, events);
      }
    }
  }

  /** However many cuts split a pair: together they change no event if and only if each of them is harmless. */
  lemma ChunksHarmless(chunks: seq<string>, first: string, segments: seq<string>)
    requires [first] + segments == Segments(chunks)
    ensures FeedAll("", chunks).0 == Drain(ToLf(Concat(chunks))).0 <==> Harmless(ToLf(first), segments)
  {
    assert Segments(chunks)[0] == first && Segments(chunks)[1..] == segments;
    ChunkEvents(chunks, first, segments);
    SegmentsCut(chunks);
    CutsHarmless(first, segments, ToLf(first));
  }
}
