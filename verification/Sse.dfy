/**
 * The incremental parser of a server-sent event stream (live/src/lib/sse.ts).
 * Of section 9.2.6 of the WHATWG HTML Standard it reads `event`, `data` and comment lines.
 */
module Sse {
  import opened Wrappers
  import opened Text

  /** What the parser hands on, in order. */
  datatype Event = Frame(event: string, data: string) | Comment(text: string)

  // --- Line endings -------------------------------------------------------------

  /** Every CR LF, and every CR on its own, becomes one LF. */
  function ToLf(s: string): string
    decreases |s|
  {
    if s == "" then ""
    else if s[0] == '\r' then "\n" + ToLf(if |s| > 1 && s[1] == '\n' then s[2..] else s[1..])
    else [s[0]] + ToLf(s[1..])
  }

  /** The cut between `a` and `b` falls inside a CR LF pair. */
  predicate SplitsCrLf(a: string, b: string) {
    a != "" && b != "" && a[|a| - 1] == '\r' && b[0] == '\n'
  }

  lemma {:induction false} ToLfAppend(a: string, b: string)
    ensures !SplitsCrLf(a, b) ==> ToLf(a + b) == ToLf(a) + ToLf(b)
    ensures SplitsCrLf(a, b) ==> |ToLf(a + b)| == |ToLf(a)| + |ToLf(b)| - 1
    decreases |a|
  {
    if a == "" {
      assert a + b == b;
    } else if a == "\r" {
      assert (a + b)[1..] == b;
      if b != "" && b[0] == '\n' {
        assert (a + b)[2..] == b[1..];
      }
    } else {
      var n := FirstLength(a);
      assert (a + b)[n..] == a[n..] + b;
      ToLfAppend(a[n..], b);
      assert a[n..] != "" ==> a[n..][|a| - n - 1] == a[|a| - 1];
      Regroup([FirstLf(a)], ToLf(a[n..]), ToLf(b));
    }
  }

  /** How many characters make the first one of the normal form. */
  function FirstLength(s: string): (n: nat)
    requires s != ""
    ensures 1 <= n <= |s|
  {
    if |s| >= 2 && s[0] == '\r' && s[1] == '\n' then 2 else 1
  }

  function FirstLf(s: string): char
    requires s != ""
  {
    if s[0] == '\r' then '\n' else s[0]
  }

  /** Normalising chunk by chunk is the same exactly when no cut splits a CR LF pair. */
  lemma ToLfByChunk(a: string, b: string)
    ensures ToLf(a + b) == ToLf(a) + ToLf(b) <==> !SplitsCrLf(a, b)
  {
    ToLfAppend(a, b);
  }

  // --- One block ------------------------------------------------------------------

  /** `s.split("\n")`. */
  function Split(s: string): (r: seq<string>)
    ensures r != []
    decreases |s|
  {
    var i := IndexOf(s, "\n", 0);
    if i < 0 then [s] else [s[..i]] + Split(s[i + 1..])
  }

  /** `lines.join("\n")`. */
  function Join(lines: seq<string>): string {
    if lines == [] then ""
    else if |lines| == 1 then lines[0]
    else lines[0] + "\n" + Join(lines[1..])
  }

  function Field(line: string): string {
    var colon := IndexOf(line, ":", 0);
    if colon < 0 then line else line[..colon]
  }

  /** What follows the colon, without one leading space. */
  function Value(line: string): string {
    var colon := IndexOf(line, ":", 0);
    var value := if colon < 0 then "" else line[colon + 1..];
    if value != "" && value[0] == ' ' then value[1..] else value
  }

  /** What the lines of a block give, after lines that gave `event` and `data`. */
  function BlockEvents(lines: seq<string>, event: string, data: seq<string>): seq<Event> {
    if lines == [] then
      if event != "" || data != [] then [Frame(if event != "" then event else "message", Join(data))] else []
    else
      var line := lines[0];
      if line != "" && line[0] == ':' then [Comment(line[1..])] + BlockEvents(lines[1..], event, data)
      else if Field(line) == "event" then BlockEvents(lines[1..], Value(line), data)
      else if Field(line) == "data" then BlockEvents(lines[1..], event, data + [Value(line)])
      else BlockEvents(lines[1..], event, data)
  }

  // --- The buffer -------------------------------------------------------------------

  const BLANK := "\n\n"

  /** All complete blocks of a buffer, and what is left over. */
  function Drain(buffer: string): (r: (seq<Event>, string))
    decreases |buffer|
  {
    var end := IndexOf(buffer, BLANK, 0);
    if end < 0 then ([], buffer)
    else
      var (events, rest) := Drain(buffer[end + 2..]);
      (BlockEvents(Split(buffer[..end]), "", []) + events, rest)
  }

  /** The closure over `buffer`. */
  class SseParser {
    var buffer: string

    constructor ()
      ensures buffer == ""
    {
      buffer := "";
    }

    /** Takes one chunk and hands on what it completes; the loop cuts block after block off the buffer. */
    method Feed(chunk: string) returns (out: seq<Event>)
      modifies this
      ensures out == Drain(old(buffer) + ToLf(chunk)).0 && buffer == Drain(old(buffer) + ToLf(chunk)).1
    {
      buffer := buffer + ToLf(chunk);
      out := [];
      ghost var start := buffer;
      assert [] + Drain(buffer).0 == Drain(buffer).0;
      while true
        invariant out + Drain(buffer).0 == Drain(start).0 && Drain(buffer).1 == Drain(start).1
        decreases |buffer|
      {
        var end := IndexOf(buffer, BLANK, 0);
        if end < 0 {
          break;
        }
        var events := ReadBlock(buffer[..end]);
        ghost var more := Drain(buffer[end + 2..]).0;
        assert out + (events + more) == (out + events) + more;
        buffer := buffer[end + 2..];
        out := out + events;
      }
    }

    /** The loop over the lines of one block. */
    method ReadBlock(block: string) returns (out: seq<Event>)
      ensures out == BlockEvents(Split(block), "", [])
    {
      var lines, event, data := Split(block), "", [];
      out := [];
      ghost var all := BlockEvents(lines, "", []);
      assert lines[0..] == lines;
      for i := 0 to |lines|
        invariant out + BlockEvents(lines[i..], event, data) == all
      {
        var line := lines[i];
        LineRead(lines, i, event, data);
        if line != "" && line[0] == ':' {
          Regroup(out, [Comment(line[1..])], BlockEvents(lines[i + 1..], event, data));
          out := out + [Comment(line[1..])];
        } else if Field(line) == "event" {
          event := Value(line);
        } else if Field(line) == "data" {
          data := data + [Value(line)];
        }
      }
      if event != "" || data != [] {
        out := out + [Frame(if event != "" then event else "message", Join(data))];
      }
    }
  }

  /** What one more line of a block does. */
  lemma LineRead(lines: seq<string>, i: nat, event: string, data: seq<string>)
    requires i < |lines|
    ensures var line, rest := lines[i], lines[i + 1..];
            BlockEvents(lines[i..], event, data)
            == if line != "" && line[0] == ':' then [Comment(line[1..])] + BlockEvents(rest, event, data)
               else if Field(line) == "event" then BlockEvents(rest, Value(line), data)
               else if Field(line) == "data" then BlockEvents(rest, event, data + [Value(line)])
               else BlockEvents(rest, event, data)
  {
    assert lines[i..][0] == lines[i] && lines[i..][1..] == lines[i + 1..];
  }

  // --- Independence of the cuts --------------------------------------------------------

  /** A blank line inside `b` is still the first one when more text follows. */
  lemma {:induction false} IndexOfAppend(b: string, y: string)
    requires IndexOf(b, BLANK, 0) >= 0
    ensures IndexOf(b + y, BLANK, 0) == IndexOf(b, BLANK, 0)
  {
    var e := IndexOf(b, BLANK, 0);
    forall i | 0 <= i < e ensures !MatchesAt(b + y, BLANK, i) {
      MatchesPair(b, '\n', '\n', i);
      MatchesPair(b + y, '\n', '\n', i);
    }
    MatchesPair(b, '\n', '\n', e);
    MatchesPair(b + y, '\n', '\n', e);
    IndexOfIs(b + y, BLANK, 0, e);
  }

  /** The events up to the first blank line, and those after it. */
  lemma DrainAt(buffer: string, end: int, block: string, tail: string)
    requires IndexOf(buffer, BLANK, 0) == end >= 0 && block == buffer[..end] && tail == buffer[end + 2..]
    ensures Drain(buffer).0 == BlockEvents(Split(block), "", []) + Drain(tail).0 && Drain(buffer).1 == Drain(tail).1
  {
  }

  /** Draining early changes nothing: the rest of the text continues from what was left over. */
  lemma {:induction false} DrainAppend(b: string, y: string)
    ensures var (events, rest) := Drain(b);
            Drain(b + y) == (events + Drain(rest + y).0, Drain(rest + y).1)
    decreases |b|
  {
    var end := IndexOf(b, BLANK, 0);
    if end >= 0 {
      var block, tail := b[..end], b[end + 2..];
      IndexOfAppend(b, y);
      assert (b + y)[..end] == block && (b + y)[end + 2..] == tail + y;
      DrainAt(b, end, block, tail);
      DrainAt(b + y, end, block, tail + y);
      DrainAppend(tail, y);
      Regroup(BlockEvents(Split(block), "", []), Drain(tail).0, Drain(Drain(tail).1 + y).0);
    } else {
      assert [] + Drain(b + y).0 == Drain(b + y).0;
    }
  }

  /** What is left over never contains a blank line, so nothing complete is held back. */
  lemma {:induction false} LeftoverIncomplete(b: string)
    ensures IndexOf(Drain(b).1, BLANK, 0) == -1
    ensures Drain(Drain(b).1) == ([], Drain(b).1)
    decreases |b|
  {
    var end := IndexOf(b, BLANK, 0);
    if end >= 0 {
      LeftoverIncomplete(b[end + 2..]);
    }
  }

  function Concat(chunks: seq<string>): string {
    if chunks == [] then "" else chunks[0] + Concat(chunks[1..])
  }

  /** Feeding chunk after chunk. */
  function FeedAll(buffer: string, chunks: seq<string>): (seq<Event>, string)
    decreases |chunks|
  {
    if chunks == [] then ([], buffer)
    else
      var (events, rest) := Drain(buffer + ToLf(chunks[0]));
      var (more, left) := FeedAll(rest, chunks[1..]);
      (events + more, left)
  }

  predicate CleanCuts(chunks: seq<string>) {
    chunks == [] || (!SplitsCrLf(chunks[0], Concat(chunks[1..])) && CleanCuts(chunks[1..]))
  }

  /** Any cutting that splits no CR LF pair gives what the whole text gives. */
  lemma {:induction false} FeedAllIsWhole(buffer: string, chunks: seq<string>)
    requires CleanCuts(chunks) && IndexOf(buffer, BLANK, 0) == -1
    ensures FeedAll(buffer, chunks) == Drain(buffer + ToLf(Concat(chunks)))
    decreases |chunks|
  {
    if chunks == [] {
      assert buffer + "" == buffer;
    } else {
      var first, rest := chunks[0], Concat(chunks[1..]);
      ToLfAppend(first, rest);
      var b := buffer + ToLf(first);
      DrainAppend(b, ToLf(rest));
      LeftoverIncomplete(b);
      FeedAllIsWhole(Drain(b).1, chunks[1..]);
      Regroup(buffer, ToLf(first), ToLf(rest));
    }
  }

  /** Two cuttings of the same stream are told apart neither by what was handed on nor by what is left. */
  lemma ChunkIndependence(a: seq<string>, b: seq<string>)
    requires CleanCuts(a) && CleanCuts(b) && Concat(a) == Concat(b)
    ensures FeedAll("", a) == FeedAll("", b)
  {
    FeedAllIsWhole("", a);
    FeedAllIsWhole("", b);
  }

  lemma ToLfLine(line: string, rest: string)
    requires OneLine(line)
    ensures ToLf(line + "\r") == line + "\n"
    ensures ToLf("\n" + rest) == "\n" + ToLf(rest)
    ensures ToLf((line + "\r") + ("\n" + rest)) == line + ("\n" + ToLf(rest))
  {
    LfOnly(line);
    ToLfAppend(line, "\r");
    assert "\r"[1..] == "";
    assert ("\n" + rest)[1..] == rest;
    var tail := "\r\n" + rest;
    assert tail[2..] == rest;
    ToLfAppend(line, tail);
    assert (line + "\r") + ("\n" + rest) == line + tail;
  }

  lemma OneLineIsIncomplete(line: string)
    requires OneLine(line) && line != ""
    ensures Drain(line + "\n") == ([], line + "\n")
  {
    var start := line + "\n";
    forall i | 0 <= i ensures !MatchesAt(start, BLANK, i) {
      MatchesPair(start, '\n', '\n', i);
      assert i < |line| ==> start[i] == line[i] && line[i] in line;
    }
    IndexOfNone(start, BLANK, 0);
  }

  /** Feeding two chunks of which the first completes nothing. */
  lemma FeedTwo(a: string, b: string)
    requires Drain(ToLf(a)) == ([], ToLf(a))
    ensures FeedAll("", [a, b]) == Drain(ToLf(a) + ToLf(b))
  {
    var start, chunks, d := ToLf(a), [a, b], Drain(ToLf(a) + ToLf(b));
    assert chunks[1..] == [b] && [b][1..] == [];
    assert "" + start == start;
    assert FeedAll(d.1, []) == ([], d.1);
    assert d.0 + [] == d.0 && [] + d.0 == d.0;
    assert FeedAll(start, [b]) == d;
  }

  lemma SplitPairBlock(line: string, rest: string)
    requires line != "" && OneLine(line)
    ensures Drain((line + "\n") + ("\n" + rest)) == (BlockEvents([line], "", []) + Drain(rest).0, Drain(rest).1)
  {
    PrintOne(line);
    PrintedDrains([line], rest);
    Regroup(line + "\n", "\n", rest);
  }

  lemma PrintOne(line: string)
    ensures PrintLines([line], "\n") == line + "\n"
  {
    assert [line][1..] == [];
    assert PrintLines([], "\n") == "";
  }

  /**
   * A cut inside the CR LF that ends a line ends the whole block there: the line is read as a
   * block of its own, and what follows as the next one.
   */
  lemma SplitPairEndsBlock(line: string, rest: string)
    requires line != "" && OneLine(line)
    ensures FeedAll("", [line + "\r", "\n" + rest])
            == (BlockEvents([line], "", []) + Drain(ToLf(rest)).0, Drain(ToLf(rest)).1)
    ensures ToLf((line + "\r") + ("\n" + rest)) == line + ("\n" + ToLf(rest))
  {
    ToLfLine(line, rest);
    OneLineIsIncomplete(line);
    SplitPairBlock(line, ToLf(rest));
    FeedTwo(line + "\r", "\n" + rest);
  }

  /** Where the whole stream gives one frame of two data lines, the cut gives two frames. */
  lemma SplitPairChangesFrames(x: string, y: string)
    requires OneLine(x) && OneLine(y)
    ensures var a, b := ("data: " + x) + "\r", "\n" + (("data: " + y) + "\n" + "\n");
            && SplitsCrLf(a, b)
            && FeedAll("", [a, b]) == ([Frame("message", x), Frame("message", y)], "")
            && Drain(ToLf(a + b)) == ([Frame("message", x + "\n" + y)], "")
  {
    var rest := ("data: " + y) + "\n" + "\n";
    LfOnly(rest);
    OneDataLine(x);
    OneDataLine(y);
    CutFrames("data: " + x, rest, Frame("message", x), Frame("message", y));
    BothDataLines(x, y);
  }

  lemma CutFrames(line: string, rest: string, first: Event, second: Event)
    requires line != "" && OneLine(line) && ToLf(rest) == rest
    requires BlockEvents([line], "", []) == [first] && Drain(rest) == ([second], "")
    ensures FeedAll("", [line + "\r", "\n" + rest]) == ([first, second], "")
    ensures ToLf((line + "\r") + ("\n" + rest)) == line + ("\n" + rest)
  {
    SplitPairEndsBlock(line, rest);
    assert [first] + [second] == [first, second];
  }

  lemma OneDataLine(x: string)
    requires OneLine(x)
    ensures BlockEvents(["data: " + x], "", []) == [Frame("message", x)]
    ensures Drain(("data: " + x) + "\n" + "\n") == ([Frame("message", x)], "")
  {
    DataBlockDrains([x]);
    assert DataLines([x]) == ["data: " + x];
    TwoLines("", "data: " + x);
  }

  lemma BothDataLines(x: string, y: string)
    requires OneLine(x) && OneLine(y)
    ensures Drain(("data: " + x) + ("\n" + (("data: " + y) + "\n" + "\n"))) == ([Frame("message", x + "\n" + y)], "")
  {
    var values := [x, y];
    DataBlockDrains(values);
    assert values[1..] == [y] && DataLines(values) == ["data: " + x, "data: " + y];
    TwoLines("data: " + x, "data: " + y);
  }

  lemma TwoLines(p: string, q: string)
    ensures PrintLines([q], "\n") + "\n" + "" == q + "\n" + "\n"
    ensures PrintLines([p, q], "\n") + "\n" + "" == p + ("\n" + (q + "\n" + "\n"))
  {
    assert [q][1..] == [] && [p, q][1..] == [q];
  }

  lemma DataBlockDrains(values: seq<string>)
    requires values != [] && forall v | v in values :: OneLine(v)
    ensures BlockEvents(DataLines(values), "", []) == [Frame("message", Join(values))]
    ensures Drain(PrintLines(DataLines(values), "\n") + "\n" + "") == ([Frame("message", Join(values))], "")
  {
    DataRead(values, "", []);
    assert [] + values == values;
    DataLinesPlain(values);
    PrintedDrains(DataLines(values), "");
    assert Drain("") == ([], "");
    assert [Frame("message", Join(values))] + [] == [Frame("message", Join(values))];
  }

  // --- Printing and reading back ------------------------------------------------------------

  /** Lines, each with its line ending. */
  function PrintLines(lines: seq<string>, eol: string): string {
    if lines == [] then "" else lines[0] + eol + PrintLines(lines[1..], eol)
  }

  predicate OneLine(s: string) {
    '\n' !in s && '\r' !in s
  }

  /** Events that have a printed form: named frames without CR in the data, and one-line comments. */
  predicate Printable(e: Event) {
    match e
    case Frame(event, data) => event != "" && OneLine(event) && '\r' !in data
    case Comment(text) => OneLine(text)
  }

  function DataLines(data: seq<string>): (r: seq<string>)
    ensures |r| == |data|
  {
    if data == [] then [] else ["data: " + data[0]] + DataLines(data[1..])
  }

  /** The lines of one event, without the blank line that ends it. */
  function EventLines(e: Event): seq<string> {
    match e
    case Frame(event, data) => ["event: " + event] + DataLines(Split(data))
    case Comment(text) => [":" + text]
  }

  function AllLines(events: seq<Event>): seq<string> {
    if events == [] then [] else EventLines(events[0]) + [""] + AllLines(events[1..])
  }

  function Print(events: seq<Event>, eol: string): string {
    PrintLines(AllLines(events), eol)
  }

  lemma {:induction false} LfOnly(s: string)
    requires '\r' !in s
    ensures ToLf(s) == s
  {
    if s != "" {
      assert s == [s[0]] + s[1..];
      LfOnly(s[1..]);
    }
  }

  lemma {:induction false} PrintLinesLf(lines: seq<string>, eol: string)
    requires eol in ["\n", "\r\n", "\r"]
    requires forall l | l in lines :: OneLine(l)
    ensures ToLf(PrintLines(lines, eol)) == PrintLines(lines, "\n")
    ensures PrintLines(lines, eol) != "" && eol != "\n" ==> PrintLines(lines, eol)[0] != '\n'
  {
    if lines != [] {
      var line, rest := lines[0], PrintLines(lines[1..], eol);
      assert OneLine(line);
      PrintLinesLf(lines[1..], eol);
      LfOnly(line);
      ToLfAppend(line + eol, rest);
      ToLfAppend(line, eol);
      assert ToLf(eol) == "\n" by {
        assert eol == "\r\n" ==> eol[2..] == "";
        assert eol != "\r\n" ==> eol[1..] == "";
      }
      assert (line + eol)[|line + eol| - 1] == eol[|eol| - 1];
      if line != "" && eol == "\n" {
        assert line[|line| - 1] in line;
      }
      assert line != "" ==> line[0] in line;
    }
  }

  lemma {:induction false} SplitOfJoin(lines: seq<string>)
    requires lines != [] && forall l | l in lines :: '\n' !in l
    ensures Split(Join(lines)) == lines
  {
    assert '\n' !in lines[0];
    if |lines| == 1 {
      NoIndexOfChar(lines[0], '\n');
    } else {
      var rest := Join(lines[1..]);
      IndexOfChar(lines[0], '\n', rest);
      assert (lines[0] + "\n" + rest)[..|lines[0]|] == lines[0];
      assert (lines[0] + "\n" + rest)[|lines[0]| + 1..] == rest;
      SplitOfJoin(lines[1..]);
    }
  }

  /** A string without newlines in front of its first one. */
  lemma BeforeNewline(s: string, i: nat)
    requires IndexOf(s, "\n", 0) == i
    ensures i < |s| && s == s[..i] + "\n" + s[i + 1..] && '\n' !in s[..i]
  {
    MatchesChar(s, '\n', i);
    SplitAtChar(s, i);
    forall k | 0 <= k < i ensures s[k] != '\n' {
      MatchesChar(s, '\n', k);
    }
  }

  lemma SplitAtChar(s: string, i: nat)
    requires i < |s|
    ensures s == s[..i] + [s[i]] + s[i + 1..]
  {
  }

  lemma WithoutNewline(s: string)
    requires IndexOf(s, "\n", 0) == -1
    ensures '\n' !in s
  {
    forall k | 0 <= k < |s| ensures s[k] != '\n' {
      MatchesChar(s, '\n', k);
    }
  }

  lemma {:induction false} JoinOfSplit(s: string)
    ensures Join(Split(s)) == s
    decreases |s|
  {
    var i := IndexOf(s, "\n", 0);
    if i >= 0 {
      BeforeNewline(s, i);
      var rest := s[i + 1..];
      JoinOfSplit(rest);
      var lines := [s[..i]] + Split(rest);
      assert lines[0] == s[..i] && lines[1..] == Split(rest) && |lines| > 1;
    }
  }

  lemma {:induction false} SplitPlain(s: string)
    requires '\r' !in s
    ensures forall l | l in Split(s) :: OneLine(l)
    decreases |s|
  {
    var i := IndexOf(s, "\n", 0);
    if i >= 0 {
      BeforeNewline(s, i);
      SplitPlain(s[i + 1..]);
    } else {
      WithoutNewline(s);
    }
  }

  lemma {:induction false} PrintIsJoin(lines: seq<string>)
    requires lines != []
    ensures PrintLines(lines, "\n") == Join(lines) + "\n"
  {
    if |lines| > 1 {
      PrintIsJoin(lines[1..]);
    } else {
      assert lines[1..] == [];
    }
  }

  lemma {:induction false} FirstBlank(lines: seq<string>, rest: string)
    requires lines != [] && forall l | l in lines :: l != "" && '\n' !in l
    ensures IndexOf(Join(lines) + "\n\n" + rest, BLANK, 0) == |Join(lines)|
  {
    var s, n := Join(lines) + "\n\n" + rest, |Join(lines)|;
    MatchesPair(s, '\n', '\n', n);
    forall i | 0 <= i < n ensures !MatchesAt(s, BLANK, i) {
      NoBlankInside(lines, rest, i);
    }
    IndexOfIs(s, BLANK, 0, n);
  }

  lemma {:induction false} NoBlankInside(lines: seq<string>, rest: string, i: nat)
    requires lines != [] && forall l | l in lines :: l != "" && '\n' !in l
    requires i < |Join(lines)|
    ensures !MatchesAt(Join(lines) + "\n\n" + rest, BLANK, i)
    decreases lines
  {
    var s, l, more := Join(lines) + "\n\n" + rest, lines[0], lines[1..];
    assert l in lines;
    MatchesPair(s, '\n', '\n', i);
    if i < |l| {
      assert s[i] == l[i] && l[i] in l;
    } else {
      var t := Join(more) + "\n\n" + rest;
      assert s == l + "\n" + t;
      assert forall m | m in more :: m in lines;
      if i == |l| {
        assert s[i + 1] == t[0] == more[0][0] && more[0][0] in more[0];
      } else {
        MatchesPair(t, '\n', '\n', i - |l| - 1);
        NoBlankInside(more, rest, i - |l| - 1);
      }
    }
  }

  /** A printed block at the front of the buffer is read as one block. */
  lemma {:induction false} PrintedDrains(lines: seq<string>, rest: string)
    requires lines != [] && forall l | l in lines :: l != "" && '\n' !in l
    ensures Drain(PrintLines(lines, "\n") + "\n" + rest) == (BlockEvents(lines, "", []) + Drain(rest).0, Drain(rest).1)
  {
    PrintIsJoin(lines);
    var s := Join(lines) + "\n\n" + rest;
    assert PrintLines(lines, "\n") + "\n" + rest == s;
    FirstBlank(lines, rest);
    SplitOfJoin(lines);
    assert s[..|Join(lines)|] == Join(lines) && s[|Join(lines)| + 2..] == rest;
  }

  lemma FieldOf(name: string, value: string)
    requires name == "event" || name == "data"
    ensures Field(name + ": " + value) == name && Value(name + ": " + value) == value
  {
    var line := name + ": " + value;
    assert line == name + ":" + (" " + value);
    IndexOfChar(name, ':', " " + value);
    assert line[|name| + 1..] == " " + value;
    assert line[..|name|] == name;
    assert (" " + value)[1..] == value;
  }

  lemma {:induction false} DataRead(data: seq<string>, event: string, before: seq<string>)
    ensures BlockEvents(DataLines(data), event, before) == BlockEvents([], event, before + data)
  {
    if data == [] {
      assert before + data == before;
    } else {
      var line := "data: " + data[0];
      FieldOf("data", data[0]);
      assert line == "data" + ": " + data[0];
      assert DataLines(data)[0] == line && DataLines(data)[1..] == DataLines(data[1..]);
      DataRead(data[1..], event, before + [data[0]]);
      Regroup(before, [data[0]], data[1..]);
      assert [data[0]] + data[1..] == data;
    }
  }

  /** The lines of an event are read back as that event. */
  lemma EventRead(e: Event)
    requires Printable(e)
    ensures BlockEvents(EventLines(e), "", []) == [e]
  {
    match e
    case Frame(event, data) =>
      var line := "event: " + event;
      assert line == "event" + ": " + event;
      FieldOf("event", event);
      assert EventLines(e)[0] == line && EventLines(e)[1..] == DataLines(Split(data));
      DataRead(Split(data), event, []);
      assert [] + Split(data) == Split(data);
      JoinOfSplit(data);
    case Comment(text) =>
      assert (":" + text)[1..] == text;
      assert EventLines(e)[1..] == [];
  }

  lemma {:induction false} DataLinesPlain(data: seq<string>)
    requires forall l | l in data :: OneLine(l)
    ensures forall l | l in DataLines(data) :: l != "" && OneLine(l)
  {
    if data != [] {
      assert OneLine(data[0]);
      DataLinesPlain(data[1..]);
    }
  }

  lemma EventLinesPlain(e: Event)
    requires Printable(e)
    ensures EventLines(e) != [] && forall l | l in EventLines(e) :: l != "" && OneLine(l)
  {
    match e
    case Frame(event, data) =>
      SplitPlain(data);
      DataLinesPlain(Split(data));
    case Comment(text) =>
  }

  lemma {:induction false} PrintLinesAppend(a: seq<string>, b: seq<string>, eol: string)
    ensures PrintLines(a + b, eol) == PrintLines(a, eol) + PrintLines(b, eol)
  {
    if a == [] {
      assert a + b == b;
    } else {
      assert (a + b)[1..] == a[1..] + b;
      PrintLinesAppend(a[1..], b, eol);
    }
  }

  lemma PrintBlock(lines: seq<string>, rest: seq<string>)
    ensures PrintLines(lines + [""] + rest, "\n") == PrintLines(lines, "\n") + "\n" + PrintLines(rest, "\n")
  {
    PrintLinesAppend(lines + [""], rest, "\n");
    PrintLinesAppend(lines, [""], "\n");
    PrintOne("");
    assert "" + "\n" == "\n";
  }

  lemma {:induction false} PrintedReadsBack(events: seq<Event>)
    requires forall e | e in events :: Printable(e)
    ensures Drain(Print(events, "\n")) == (events, "")
    ensures forall l | l in AllLines(events) :: OneLine(l)
  {
    if events != [] {
      var e, lines, rest := events[0], EventLines(events[0]), AllLines(events[1..]);
      EventLinesPlain(e);
      EventRead(e);
      PrintedReadsBack(events[1..]);
      PrintBlock(lines, rest);
      PrintedDrains(lines, PrintLines(rest, "\n"));
      assert [e] + events[1..] == events;
    }
  }

  /**
   * Round trip: any list of printable events, printed with any of the three line endings and
   * cut anywhere but inside a CR LF pair, is read back as exactly that list, with nothing left.
   */
  lemma RoundTrip(events: seq<Event>, eol: string, chunks: seq<string>)
    requires eol in ["\n", "\r\n", "\r"]
    requires forall e | e in events :: Printable(e)
    requires Concat(chunks) == Print(events, eol) && CleanCuts(chunks)
    ensures FeedAll("", chunks) == (events, "")
  {
    FeedAllIsWhole("", chunks);
    PrintedReadsBack(events);
    PrintLinesLf(AllLines(events), eol);
    assert "" + ToLf(Concat(chunks)) == Print(events, "\n");
  }
}
