/**
 * What one block of an event stream says, line by line, whatever lines it has
 * (live/src/lib/sse.ts; section 9.2.6 of the WHATWG HTML Standard).
 */
module SseLines {
  import opened Wrappers
  import opened Text
  import opened Sse

  /** A line of a block: a comment, a field name alone, or a field with a value, with or without a space before it. */
  datatype Line = Remark(text: string) | Alone(field: string) | Valued(field: string, spaced: bool, value: string)

  function PrintLine(l: Line): string {
    match l
    case Remark(text) => ":" + text
    case Alone(field) => field
    case Valued(field, spaced, value) => field + (":" + ((if spaced then " " else "") + value))
  }

  /** The first colon ends the name; a line that starts with one is a comment; one space is not part of the value. */
  predicate LineOk(l: Line) {
    match l
    case Remark(_) => true
    case Alone(field) => ':' !in field
    case Valued(field, spaced, value) => field != "" && ':' !in field && (!spaced && value != "" ==> value[0] != ' ')
  }

  function PrintAll(lines: seq<Line>): (r: seq<string>)
    ensures |r| == |lines|
  {
    if lines == [] then [] else [PrintLine(lines[0])] + PrintAll(lines[1..])
  }

  /** Every line is of one of these kinds. */
  lemma LineKind(s: string) returns (l: Line)
    ensures LineOk(l) && PrintLine(l) == s
  {
    var i := IndexOf(s, ":", 0);
    if i < 0 {
      NoColon(s, |s|);
      assert s[..|s|] == s;
      l := Alone(s);
    } else {
      MatchesChar(s, ':', i);
      NoColon(s, i);
      SplitAtChar(s, i);
      Regroup(s[..i], ":", s[i + 1..]);
      l := ColonKind(s[..i], s[i + 1..]);
    }
  }

  lemma ColonKind(field: string, rest: string) returns (l: Line)
    requires ':' !in field
    ensures LineOk(l) && PrintLine(l) == field + (":" + rest)
  {
    if field == "" {
      l := Remark(rest);
      assert "" + (":" + rest) == ":" + rest;
    } else if rest != "" && rest[0] == ' ' {
      l := Valued(field, true, rest[1..]);
      assert rest == " " + rest[1..];
    } else {
      l := Valued(field, false, rest);
      assert rest == "" + rest;
    }
  }

  lemma NoColon(s: string, n: nat)
    requires n <= |s| && (IndexOf(s, ":", 0) < 0 || n <= IndexOf(s, ":", 0))
    ensures ':' !in s[..n]
  {
    forall k | 0 <= k < n ensures s[k] != ':' {
      MatchesChar(s, ':', k);
    }
  }

  // --- What a block says ----------------------------------------------------------------

  predicate Names(l: Line, name: string) {
    !l.Remark? && l.field == name
  }

  function Said(l: Line): string {
    if l.Valued? then l.value else ""
  }

  /** The comments, each handed on where it stands. */
  function Remarks(lines: seq<Line>): seq<Event> {
    if lines == [] then []
    else (if lines[0].Remark? then [Event.Comment(lines[0].text)] else []) + Remarks(lines[1..])
  }

  function DataOf(lines: seq<Line>): seq<string> {
    if lines == [] then []
    else (if Names(lines[0], "data") then [Said(lines[0])] else []) + DataOf(lines[1..])
  }

  /** The last name given, or the one from before. */
  function EventOf(lines: seq<Line>, before: string): string {
    if lines == [] then before
    else EventOf(lines[1..], if Names(lines[0], "event") then Said(lines[0]) else before)
  }

  /** The frame at the end of a block: none if it has neither a name nor data. */
  function FrameOf(event: string, data: seq<string>): seq<Event> {
    if event == "" && data == [] then [] else [Frame(if event == "" then "message" else event, Join(data))]
  }

  /** What the parser takes a line for. */
  lemma LineParts(l: Line)
    requires LineOk(l) && !l.Remark?
    ensures Field(PrintLine(l)) == l.field && Value(PrintLine(l)) == Said(l)
    ensures PrintLine(l) != "" ==> PrintLine(l)[0] != ':'
  {
    match l
    case Alone(field) =>
      NoIndexOfChar(field, ':');
      assert field != "" ==> field[0] in field;
    case Valued(field, spaced, value) =>
      var rest := (if spaced then " " else "") + value;
      ValuedParts(field, rest);
      assert spaced ==> rest[1..] == value;
      assert !spaced ==> rest == value;
  }

  lemma ValuedParts(field: string, rest: string)
    requires field != "" && ':' !in field
    ensures var line := field + (":" + rest);
            && line[0] != ':' && Field(line) == field
            && Value(line) == if rest != "" && rest[0] == ' ' then rest[1..] else rest
  {
    var line := field + (":" + rest);
    Regroup(field, ":", rest);
    IndexOfChar(field, ':', rest);
    assert line[..|field|] == field && line[|field| + 1..] == rest;
    assert line[0] == field[0] && field[0] in field;
  }

  /** What one more line adds. */
  function Taken(l: Line, rest: seq<string>, event: string, data: seq<string>): seq<Event> {
    if l.Remark? then [Event.Comment(l.text)] + BlockEvents(rest, event, data)
    else if l.field == "event" then BlockEvents(rest, Said(l), data)
    else if l.field == "data" then BlockEvents(rest, event, data + [Said(l)])
    else BlockEvents(rest, event, data)
  }

  lemma FirstLine(l: Line, rest: seq<string>, event: string, data: seq<string>)
    requires LineOk(l)
    ensures BlockEvents([PrintLine(l)] + rest, event, data) == Taken(l, rest, event, data)
  {
    var lines := [PrintLine(l)] + rest;
    LineRead(lines, 0, event, data);
    assert lines[0..] == lines && lines[1..] == rest;
    if l.Remark? {
      assert (":" + l.text)[1..] == l.text;
    } else {
      LineParts(l);
    }
  }

  lemma {:induction false} BlockFrom(lines: seq<Line>, event: string, data: seq<string>)
    requires forall l | l in lines :: LineOk(l)
    ensures BlockEvents(PrintAll(lines), event, data) == Remarks(lines) + FrameOf(EventOf(lines, event), data + DataOf(lines))
    decreases |lines|, 0
  {
    if lines == [] {
      assert data + [] == data && [] + FrameOf(event, data) == FrameOf(event, data);
    } else {
      var l, rest := lines[0], lines[1..];
      assert l in lines;
      FirstLine(l, PrintAll(rest), event, data);
      BlockNext(l, rest, event, data);
    }
  }

  lemma {:induction false} BlockNext(l: Line, rest: seq<Line>, event: string, data: seq<string>)
    requires forall x | x in rest :: LineOk(x)
    ensures Taken(l, PrintAll(rest), event, data)
            == Remarks([l] + rest) + FrameOf(EventOf([l] + rest, event), data + DataOf([l] + rest))
    decreases |rest|, 1
  {
    assert ([l] + rest)[1..] == rest;
    assert [] + Remarks(rest) == Remarks(rest) && [] + DataOf(rest) == DataOf(rest);
    if l.Remark? {
      BlockFrom(rest, event, data);
      Regroup([Event.Comment(l.text)], Remarks(rest), FrameOf(EventOf(rest, event), data + DataOf(rest)));
    } else if l.field == "event" {
      BlockFrom(rest, Said(l), data);
    } else if l.field == "data" {
      BlockFrom(rest, event, data + [Said(l)]);
      Regroup(data, [Said(l)], DataOf(rest));
    } else {
      BlockFrom(rest, event, data);
    }
  }

  /**
   * A block hands on its comments, and then one frame if it names an event or has data: the last name given, or
   * "message", and the values of all data lines. All other fields are skipped.
   */
  lemma BlockSays(lines: seq<Line>)
    requires forall l | l in lines :: LineOk(l)
    ensures BlockEvents(PrintAll(lines), "", []) == Remarks(lines) + FrameOf(EventOf(lines, ""), DataOf(lines))
  {
    BlockFrom(lines, "", []);
    assert [] + DataOf(lines) == DataOf(lines);
  }
}
