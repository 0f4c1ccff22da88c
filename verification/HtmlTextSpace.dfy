/**
 * The text of an HTML page read from its source, each character with the source offset it
 * comes from (live/src/lib/html-text-space.ts).
 */
module HtmlTextSpace {
  import opened Wrappers
  import opened Text
  import opened TextSpaces

  /** What a character reference stands for, as the browser decodes it. */
  type Decode = string -> string

  const BLOCK := {
    "p", "h1", "h2", "h3", "h4", "h5", "h6", "li", "blockquote", "pre", "tr", "td", "th", "div", "dt", "dd",
    "ul", "ol", "table", "hr", "br", "section", "article", "header", "footer", "main", "nav", "aside",
    "figure", "figcaption", "details", "summary"
  }

  const SKIP := {"script", "style", "template", "title", "noscript", "svg", "iframe", "object", "textarea", "select"}

  /** How references are decoded, which elements are blocks, and whose content is not page text. */
  datatype Rules = Rules(decode: Decode, block: set<string>, skip: set<string>)

  /** The elements are those of the code. None is both a block and skipped. */
  function CodeRules(decode: Decode): (r: Rules)
    ensures r.block !! r.skip
  {
    Rules(decode, BLOCK, SKIP)
  }

  // --- Characters --------------------------------------------------------------------

  predicate Digit(c: char) {
    '0' <= c <= '9'
  }

  predicate Hex(c: char) {
    Digit(c) || 'a' <= c <= 'f' || 'A' <= c <= 'F'
  }

  predicate Letter(c: char) {
    'a' <= c <= 'z' || 'A' <= c <= 'Z'
  }

  predicate Alnum(c: char) {
    Letter(c) || Digit(c)
  }

  predicate NameChar(c: char) {
    Alnum(c) || c == '-'
  }

  function LowerCase(c: char): char {
    if 'A' <= c <= 'Z' then (c as int + 32) as char else c
  }

  function Lowered(s: string): (r: string)
    ensures |r| == |s|
  {
    seq(|s|, i requires 0 <= i < |s| => LowerCase(s[i]))
  }

  // --- Tokens -----------------------------------------------------------------------------

  /** The end of the run of characters with `p` that starts at `i`. */
  function SpanEnd(s: string, i: nat, p: char -> bool): (r: nat)
    requires i <= |s|
    ensures i <= r <= |s| && (r < |s| ==> !p(s[r]))
    decreases |s| - i
  {
    if i < |s| && p(s[i]) then SpanEnd(s, i + 1, p) else i
  }

  function PastSemicolon(html: string, end: nat): (r: nat)
    requires end <= |html|
    ensures end <= r <= |html|
  {
    if end < |html| && html[end] == ';' then end + 1 else end
  }

  /** The end of the character reference at `i`: decimal, hexadecimal or named, the semicolon optional. */
  function Reference(html: string, i: nat): (r: Option<nat>)
    requires i < |html|
    ensures r.Some? ==> i < r.value <= |html|
  {
    if i + 2 < |html| && html[i + 1] == '#' && Digit(html[i + 2]) then
      Some(PastSemicolon(html, SpanEnd(html, i + 2, Digit)))
    else if i + 3 < |html| && html[i + 1] == '#' && html[i + 2] in "xX" && Hex(html[i + 3]) then
      Some(PastSemicolon(html, SpanEnd(html, i + 3, Hex)))
    else if i + 1 < |html| && Letter(html[i + 1]) then
      Some(PastSemicolon(html, SpanEnd(html, i + 1, Alnum)))
    else None
  }

  datatype Tag = Tag(closing: bool, name: string)

  function TagAt(html: string, i: nat): Option<Tag>
    requires i < |html|
  {
    var closing := i + 1 < |html| && html[i + 1] == '/';
    var n := if closing then i + 2 else i + 1;
    if n < |html| && Letter(html[n]) then Some(Tag(closing, html[n..SpanEnd(html, n, NameChar)])) else None
  }

  /** The ">" that ends a tag, past quoted attribute values, or the end of the page. */
  function TagEnd(html: string, j: nat, quote: Option<char>): (r: nat)
    requires j <= |html|
    ensures j <= r <= |html| && (r < |html| ==> html[r] == '>')
    decreases |html| - j
  {
    if j == |html| then j
    else if quote.Some? then TagEnd(html, j + 1, if html[j] == quote.value then None else quote)
    else if html[j] == '"' || html[j] == '\'' then TagEnd(html, j + 1, Some(html[j]))
    else if html[j] == '>' then j
    else TagEnd(html, j + 1, None)
  }

  // --- One step of the scan -----------------------------------------------------------------

  datatype Emit = Chars(s: string) | Break | Nothing

  /** Where the scan goes on, and what it emits where it stopped. */
  datatype Step = Step(next: nat, emit: Emit)

  function ReferenceStep(html: string, rules: Rules, i: nat): (r: Step)
    requires i < |html|
    ensures i < r.next <= |html|
  {
    var end := Reference(html, i);
    if end.Some? && rules.decode(html[i..end.value]) != html[i..end.value]
    then Step(end.value, Chars(rules.decode(html[i..end.value])))
    else Step(i + 1, Chars([html[i]]))
  }

  function CommentEnd(html: string, i: nat): (r: nat)
    requires MatchesAt(html, "<!--", i)
    ensures i < r <= |html|
  {
    var end := IndexOf(html, "-->", i + 4);
    if end == -1 then |html| else end + 3
  }

  /** Where a page goes on after an element that is skipped with its content, or after any other tag. */
  function AfterTag(html: string, rules: Rules, tag: Option<Tag>, j: nat): (r: nat)
    requires 0 < j <= |html|
    ensures j < r <= |html| + 1 || r == |html|
  {
    if tag.Some? && !tag.value.closing && Lowered(tag.value.name) in rules.skip && html[j - 1] != '/' then
      var close := IndexOf(Lowered(html), "</" + Lowered(tag.value.name), j + 1);
      if close == -1 then |html| else close
    else j + 1
  }

  predicate Declaration(html: string, i: nat) {
    i + 1 < |html| && (html[i + 1] == '!' || html[i + 1] == '?')
  }

  function TagStep(html: string, rules: Rules, i: nat): (r: Step)
    requires i < |html|
    ensures i < r.next <= |html| + 1
  {
    var tag := TagAt(html, i);
    if tag.None? && !Declaration(html, i) then Step(i + 1, Chars([html[i]]))
    else
      var j := TagEnd(html, i + 1, None);
      Step(AfterTag(html, rules, tag, j), if tag.Some? && Lowered(tag.value.name) in rules.block then Break else Nothing)
  }

  function StepAt(html: string, rules: Rules, i: nat): (r: Step)
    requires i < |html|
    ensures i < r.next <= |html| + 1
  {
    if html[i] == '&' then ReferenceStep(html, rules, i)
    else if html[i] != '<' then Step(i + 1, Chars([html[i]]))
    else if MatchesAt(html, "<!--", i) then Step(CommentEnd(html, i), Nothing)
    else TagStep(html, rules, i)
  }

  // --- The scan ---------------------------------------------------------------------------------

  /** The text so far, and the source offset of each of its characters. */
  datatype Out = Out(text: string, pos: seq<nat>)

  function Repeat(at: nat, n: nat): (r: seq<nat>)
    ensures |r| == n && forall k | 0 <= k < n :: r[k] == at
  {
    seq(n, _ => at)
  }

  function Add(out: Out, s: string, at: nat): Out {
    Out(out.text + s, out.pos + Repeat(at, |s|))
  }

  predicate BreakShows(text: string) {
    text != "" && text[|text| - 1] != '\n'
  }

  /** What one step emits after `text`: a break only shows between characters that are not newlines. */
  function Shown(text: string, emit: Emit): string {
    match emit
    case Chars(s) => s
    case Break => if BreakShows(text) then "\n" else ""
    case Nothing => ""
  }

  function Scan(html: string, rules: Rules, i: nat, out: Out): Out
    decreases |html| - i
  {
    if i >= |html| then out
    else
      var step := StepAt(html, rules, i);
      Scan(html, rules, step.next, Add(out, Shown(out.text, step.emit), i))
  }

  function PageText(html: string, rules: Rules): Out {
    Scan(html, rules, 0, Out("", []))
  }

  method TagEndLoop(html: string, from: nat) returns (j: nat)
    requires from <= |html|
    ensures j == TagEnd(html, from, None)
  {
    j := from;
    var quote: Option<char> := None;
    while j < |html|
      invariant from <= j <= |html| && TagEnd(html, j, quote) == TagEnd(html, from, None)
    {
      var c := html[j];
      if quote.Some? {
        if c == quote.value {
          quote := None;
        }
      } else if c == '"' || c == '\'' {
        quote := Some(c);
      } else if c == '>' {
        break;
      }
      j := j + 1;
    }
  }

  /** What follows a tag at `i`, with the text and offsets so far. */
  method ReadTag(html: string, rules: Rules, i: nat, text: string, pos: seq<nat>) returns (next: nat, text': string, pos': seq<nat>)
    requires i < |html|
    ensures next == TagStep(html, rules, i).next
    ensures Out(text', pos') == Add(Out(text, pos), Shown(text, TagStep(html, rules, i).emit), i)
  {
    text', pos' := text, pos;
    var tag := TagAt(html, i);
    if tag.None? && !Declaration(html, i) {
      return i + 1, text + [html[i]], pos + Repeat(i, 1);
    }
    var j := TagEndLoop(html, i + 1);
    var name := if tag.Some? then Lowered(tag.value.name) else "";
    if tag.Some? && name in rules.block && text != "" && text[|text| - 1] != '\n' {
      text', pos' := text + "\n", pos + Repeat(i, 1);
    }
    next := SkipContent(html, rules, tag, name, j);
    assert pos' == pos + Repeat(i, |text'| - |text|);
  }

  method SkipContent(html: string, rules: Rules, tag: Option<Tag>, name: string, j: nat) returns (next: nat)
    requires 0 < j <= |html| && (tag.Some? ==> name == Lowered(tag.value.name))
    ensures next == AfterTag(html, rules, tag, j)
  {
    next := j + 1;
    if tag.Some? && !tag.value.closing && name in rules.skip && html[j - 1] != '/' {
      var close := IndexOf(Lowered(html), "</" + name, next);
      next := if close == -1 then |html| else close;
    }
  }

  /** The scan as a loop. */
  method HtmlSourceText(html: string, rules: Rules) returns (text: string, pos: seq<nat>)
    ensures Out(text, pos) == PageText(html, rules)
  {
    text, pos := "", [];
    var i: nat := 0;
    while i < |html|
      invariant Scan(html, rules, i, Out(text, pos)) == PageText(html, rules)
      decreases |html| - i
    {
      var ch := html[i];
      ghost var step := StepAt(html, rules, i);
      ghost var next := Add(Out(text, pos), Shown(text, step.emit), i);
      if ch == '&' {
        var m := Reference(html, i);
        var value := if m.Some? then rules.decode(html[i..m.value]) else [ch];
        if m.Some? && value != html[i..m.value] {
          text, pos, i := text + value, pos + Repeat(i, |value|), m.value;
        } else {
          text, pos, i := text + [ch], pos + Repeat(i, 1), i + 1;
        }
      } else if ch != '<' {
        text, pos, i := text + [ch], pos + Repeat(i, 1), i + 1;
      } else if MatchesAt(html, "<!--", i) {
        var end := IndexOf(html, "-->", i + 4);
        assert text + "" == text && pos + Repeat(i, 0) == pos;
        i := if end == -1 then |html| else end + 3;
      } else {
        i, text, pos := ReadTag(html, rules, i, text, pos);
      }
      assert i == step.next && Out(text, pos) == next;
    }
  }

  // --- The offset map ----------------------------------------------------------------------------

  ghost predicate Ordered(pos: seq<nat>) {
    forall j, k | 0 <= j < k < |pos| :: pos[j] <= pos[k]
  }

  /** The text is as long as its offset map, which never goes back and stays below `i`. */
  ghost predicate Placed(out: Out, i: nat) {
    |out.pos| == |out.text| && Ordered(out.pos) && forall k | 0 <= k < |out.pos| :: out.pos[k] < i
  }

  lemma AddPlaced(out: Out, s: string, at: nat, next: nat)
    requires Placed(out, at) && at < next
    ensures Placed(Add(out, s, at), next)
  {
  }

  /** The scan only appends, one offset for each character, at offsets that never go back. */
  lemma {:induction false} ScanPlaced(html: string, rules: Rules, i: nat, out: Out)
    requires Placed(out, i) && forall k | 0 <= k < |out.pos| :: out.pos[k] < |html|
    ensures Placed(Scan(html, rules, i, out), |html|)
    ensures out.text <= Scan(html, rules, i, out).text && out.pos <= Scan(html, rules, i, out).pos
    ensures forall k | |out.pos| <= k < |Scan(html, rules, i, out).pos| :: Scan(html, rules, i, out).pos[k] >= i
    decreases |html| - i
  {
    if i < |html| {
      var step := StepAt(html, rules, i);
      var s := Shown(out.text, step.emit);
      AddPlaced(out, s, i, step.next);
      ScanPlaced(html, rules, step.next, Add(out, s, i));
    }
  }

  lemma PagePlaced(html: string, rules: Rules)
    ensures Placed(PageText(html, rules), |html|)
  {
    ScanPlaced(html, rules, 0, Out("", []));
  }

  // --- Binary search ---------------------------------------------------------------------------------

  /** The first index whose value is at least `v`. */
  function Below(arr: seq<nat>, v: nat): (r: nat)
    ensures r <= |arr| && (r < |arr| ==> arr[r] >= v)
    ensures forall k | 0 <= k < r :: arr[k] < v
  {
    if arr == [] || arr[0] >= v then 0 else 1 + Below(arr[1..], v)
  }

  lemma BelowMeaning(arr: seq<nat>, v: nat, k: nat)
    requires Ordered(arr) && k < |arr|
    ensures k < Below(arr, v) <==> arr[k] < v
  {
  }

  method LowerBound(arr: seq<nat>, v: nat) returns (lo: nat)
    requires Ordered(arr)
    ensures lo == Below(arr, v)
  {
    lo := 0;
    var hi := |arr|;
    while lo < hi
      invariant lo <= Below(arr, v) <= hi <= |arr|
    {
      var mid := (lo + hi) / 2;
      BelowMeaning(arr, v, mid);
      if arr[mid] < v {
        lo := mid + 1;
      } else {
        hi := mid;
      }
    }
  }

  lemma StartsOrdered(html: string)
    ensures Ordered(LineStarts(html))
  {
    var starts := LineStarts(html);
    StartsMeaning(html, |html|);
    forall j, k | 0 <= j < k < |starts| ensures starts[j] <= starts[k] {
      StartBefore(html, j, starts[k]);
    }
  }

  /** Searching the line starts for the next offset counts the newlines before this one. */
  lemma LineBySearch(html: string, offset: nat)
    ensures Below(LineStarts(html), offset + 1) == LineOf(html, offset)
  {
    var n, starts := Below(LineStarts(html), offset + 1), LineStarts(html);
    StartCount(html);
    LineOfMonotone(html, offset, Max(offset, |html|));
    LineOfMonotone(html, |html|, Max(offset, |html|));
    if n < |starts| {
      StartBefore(html, n, offset);
    }
    StartsMeaning(html, |html|);
    StartBefore(html, n - 1, offset);
  }

  // --- Lines of the page ----------------------------------------------------------------------------------

  /** The line of a text index, clamped to the text; `None` if there is no text. */
  function LineOfIndex(html: string, out: Out, k: int): Option<int> {
    if out.pos == [] then None else Some(Below(LineStarts(html), out.pos[Min(Max(0, k), |out.pos| - 1)] + 1))
  }

  /** [start, end) of the text on lines a..b; `None` if there is none. */
  function IndexRange(html: string, out: Out, a: int, b: int): Option<(int, int)> {
    var starts := LineStarts(html);
    if a < 1 || a > |starts| then None
    else
      var end := Min(Max(a, b), |starts|);
      var start := Below(out.pos, starts[a - 1]);
      var stop := Below(out.pos, if end < |starts| then starts[end] else |html| + 1);
      if start < stop then Some((start, stop)) else None
  }

  method IndexRangeSearch(html: string, out: Out, a: int, b: int) returns (r: Option<(int, int)>)
    requires Placed(out, |html|)
    ensures r == IndexRange(html, out, a, b)
  {
    var starts := FindLineStarts(html);
    if a < 1 || a > |starts| {
      return None;
    }
    var end := Min(Max(a, b), |starts|);
    var start := LowerBound(out.pos, starts[a - 1]);
    var stop := LowerBound(out.pos, if end < |starts| then starts[end] else |html| + 1);
    return if start < stop then Some((start, stop)) else None;
  }

  method LineSearch(html: string, out: Out, k: int) returns (r: Option<int>)
    ensures r == LineOfIndex(html, out, k)
  {
    if out.pos == [] {
      return None;
    }
    var starts := FindLineStarts(html);
    StartsOrdered(html);
    var n := LowerBound(starts, out.pos[Min(Max(0, k), |out.pos| - 1)] + 1);
    return Some(n);
  }

  /** The space over a page: its text, with the lines of the source. */
  function HtmlSpace(html: string, rules: Rules): TextSpace {
    var out := PageText(html, rules);
    TextSpace(out.text,
              Some((a: int, b: int) => IndexRange(html, out, a, b)),
              Some((k: int) => LineOfIndex(html, out, k)))
  }

  predicate OnLines(html: string, out: Out, k: int, a: int, b: int) {
    LineOfIndex(html, out, k).Some? && a <= LineOfIndex(html, out, k).value <= Max(a, b)
  }

  /** Which side of the two ends an index is on. */
  lemma AtLine(html: string, out: Out, k: nat, line: nat)
    requires Placed(out, |html|) && k < |out.pos| && line < |LineStarts(html)|
    ensures LineOfIndex(html, out, k).Some?
    ensures k < Below(out.pos, LineStarts(html)[line]) <==> LineOfIndex(html, out, k).value <= line
  {
    BelowMeaning(out.pos, LineStarts(html)[line], k);
    LineBySearch(html, out.pos[k]);
    StartBefore(html, line, out.pos[k]);
  }

  lemma OnLinesIffBetween(html: string, out: Out, k: nat, a: int, b: int)
    requires Placed(out, |html|) && k < |out.pos| && 1 <= a <= |LineStarts(html)|
    ensures var starts := LineStarts(html);
            var end := Min(Max(a, b), |starts|);
            OnLines(html, out, k, a, b) <==>
              Below(out.pos, starts[a - 1]) <= k < Below(out.pos, if end < |starts| then starts[end] else |html| + 1)
  {
    var starts := LineStarts(html);
    var end := Min(Max(a, b), |starts|);
    AtLine(html, out, k, a - 1);
    LineBySearch(html, out.pos[k]);
    LineOfMonotone(html, out.pos[k], |html|);
    StartCount(html);
    if end < |starts| {
      AtLine(html, out, k, end);
    } else {
      BelowMeaning(out.pos, |html| + 1, k);
    }
  }

  /**
   * Offsets and lines invert each other: a text index is in the range of some lines exactly
   * when its line is one of them, and there is no range exactly when no text is on them.
   */
  lemma IndexRangeMeaning(html: string, out: Out, a: int, b: int)
    requires Placed(out, |html|) && a >= 1
    ensures forall k: nat | k < |out.pos| ::
              OnLines(html, out, k, a, b) <==>
                IndexRange(html, out, a, b).Some? && IndexRange(html, out, a, b).value.0 <= k < IndexRange(html, out, a, b).value.1
    ensures IndexRange(html, out, a, b).None? <==> forall k: nat | k < |out.pos| :: !OnLines(html, out, k, a, b)
  {
    if a <= |LineStarts(html)| {
      forall k: nat | k < |out.pos|
        ensures OnLines(html, out, k, a, b) <==>
                  IndexRange(html, out, a, b).Some? && IndexRange(html, out, a, b).value.0 <= k < IndexRange(html, out, a, b).value.1
      {
        OnLinesIffBetween(html, out, k, a, b);
      }
      if IndexRange(html, out, a, b).Some? {
        OnLinesIffBetween(html, out, IndexRange(html, out, a, b).value.0, a, b);
      }
    } else {
      forall k: nat | k < |out.pos| ensures !OnLines(html, out, k, a, b) {
        LineBySearch(html, out.pos[k]);
        LineOfMonotone(html, out.pos[k], |html|);
        StartCount(html);
      }
    }
  }

  /** The same for a page. */
  lemma PageRangeMeaning(html: string, rules: Rules, a: int, b: int, k: nat)
    requires a >= 1 && k < |PageText(html, rules).text|
    ensures var out := PageText(html, rules);
            var r := IndexRange(html, out, a, b);
            && (OnLines(html, out, k, a, b) <==> r.Some? && r.value.0 <= k < r.value.1)
            && (r.None? ==> !OnLines(html, out, k, a, b))
            && (r.Some? ==> 0 <= r.value.0 < r.value.1 <= |out.text|)
  {
    PagePlaced(html, rules);
    IndexRangeMeaning(html, PageText(html, rules), a, b);
  }

  /** Outside the text an index counts as the nearest one inside; lines before the first have no text. */
  lemma OutsideThePage(html: string, out: Out, k: int, a: int, b: int)
    ensures out.pos == [] ==> LineOfIndex(html, out, k) == None
    ensures k <= 0 && out.pos != [] ==> LineOfIndex(html, out, k) == Some(LineOf(html, out.pos[0]))
    ensures 0 < |out.pos| <= k ==> LineOfIndex(html, out, k) == Some(LineOf(html, out.pos[|out.pos| - 1]))
    ensures a < 1 ==> IndexRange(html, out, a, b) == None
  {
    if k <= 0 && out.pos != [] {
      IndexTaken(html, out, k, 0);
    }
    if 0 < |out.pos| <= k {
      IndexTaken(html, out, k, |out.pos| - 1);
    }
  }

  lemma IndexTaken(html: string, out: Out, k: int, j: nat)
    requires j < |out.pos| && (k == j || k < j == 0 || |out.pos| - 1 == j < k)
    ensures LineOfIndex(html, out, k) == Some(LineOf(html, out.pos[j]))
  {
    LineBySearch(html, out.pos[j]);
  }

  // --- Where each character comes from -------------------------------------------------------------------------

  /** The scan stops at `p` when it starts at `i`. */
  predicate StopsAt(html: string, rules: Rules, i: nat, p: nat)
    decreases |html| - i
  {
    i < |html| && (p == i || StopsAt(html, rules, StepAt(html, rules, i).next, p))
  }

  /** The part of the text that comes from source offset `p`. */
  function From(out: Out, p: nat): string
    requires |out.pos| == |out.text|
  {
    var a, b := Below(out.pos, p), Below(out.pos, p + 1);
    if a <= b then out.text[a..b] else ""
  }

  lemma BelowIs(arr: seq<nat>, v: nat, r: nat)
    requires r <= |arr| && (forall k | 0 <= k < r :: arr[k] < v) && (forall k | r <= k < |arr| :: arr[k] >= v)
    ensures Below(arr, v) == r
  {
    assert r < |arr| ==> arr[r] >= v;
  }

  /**
   * Each stop puts into the text exactly what it shows after the text before it, and nothing
   * comes from anywhere else.
   */
  lemma {:induction false} TextFrom(html: string, rules: Rules, i: nat, out: Out, p: nat)
    requires Placed(out, i) && i <= p < |html| && forall k | 0 <= k < |out.pos| :: out.pos[k] < |html|
    ensures var page := Scan(html, rules, i, out);
            && |page.pos| == |page.text|
            && From(page, p) == if StopsAt(html, rules, i, p)
                                then Shown(page.text[..Below(page.pos, p)], StepAt(html, rules, p).emit) else ""
    decreases |html| - i
  {
    ScanPlaced(html, rules, i, out);
    var page := Scan(html, rules, i, out);
    var step := StepAt(html, rules, i);
    var s := Shown(out.text, step.emit);
    var next := Add(out, s, i);
    AddPlaced(out, s, i, step.next);
    ScanPlaced(html, rules, step.next, next);
    if p == i {
      FirstStop(page, out, next, p, step.next, s);
    } else if p < step.next {
      assert !StopsAt(html, rules, step.next, p) by {
        StopsLater(html, rules, step.next, p);
      }
      SkippedPlace(page, next, p, step.next);
    } else {
      TextFrom(html, rules, step.next, next, p);
    }
  }

  lemma {:induction false} StopsLater(html: string, rules: Rules, i: nat, p: nat)
    ensures StopsAt(html, rules, i, p) ==> i <= p < |html|
    decreases |html| - i
  {
    if i < |html| && p != i {
      StopsLater(html, rules, StepAt(html, rules, i).next, p);
    }
  }

  lemma FirstStop(page: Out, out: Out, next: Out, p: nat, after: nat, s: string)
    requires Placed(out, p) && p < after && next == Add(out, s, p)
    requires |page.pos| == |page.text| && next.pos <= page.pos && next.text <= page.text
    requires forall k | |next.pos| <= k < |page.pos| :: page.pos[k] >= after
    ensures From(page, p) == s && page.text[..Below(page.pos, p)] == out.text
  {
    BelowIs(page.pos, p, |out.pos|);
    BelowIs(page.pos, p + 1, |next.pos|);
    assert page.text[..|next.text|] == next.text;
  }

  lemma SkippedPlace(page: Out, next: Out, p: nat, after: nat)
    requires |page.pos| == |page.text| && next.pos <= page.pos && p < after
    requires forall k | 0 <= k < |next.pos| :: next.pos[k] < p
    requires forall k | |next.pos| <= k < |page.pos| :: page.pos[k] >= after
    ensures From(page, p) == ""
  {
    BelowIs(page.pos, p, |next.pos|);
    BelowIs(page.pos, p + 1, |next.pos|);
  }

  /** The same for a whole page. */
  lemma PageTextFrom(html: string, rules: Rules, p: nat)
    requires p < |html|
    ensures var page := PageText(html, rules);
            && |page.pos| == |page.text|
            && From(page, p) == if StopsAt(html, rules, 0, p)
                                then Shown(page.text[..Below(page.pos, p)], StepAt(html, rules, p).emit) else ""
  {
    TextFrom(html, rules, 0, Out("", []), p);
  }

  // --- Which characters make references and names ---------------------------------------------------------------

  lemma CharacterClasses(c: char)
    ensures Digit(c) <==> c in "0123456789"
    ensures Hex(c) <==> c in "0123456789abcdefABCDEF"
    ensures Letter(c) <==> c in "abcdefghijklmnopqrstuvwxyz" || c in "ABCDEFGHIJKLMNOPQRSTUVWXYZ"
    ensures NameChar(c) <==> Letter(c) || Digit(c) || c == '-'
  {
    CharacterRange("0123456789", '0', c);
    CharacterRange("abcdef", 'a', c);
    CharacterRange("ABCDEF", 'A', c);
    CharacterRange("abcdefghijklmnopqrstuvwxyz", 'a', c);
    CharacterRange("ABCDEFGHIJKLMNOPQRSTUVWXYZ", 'A', c);
    assert "0123456789abcdefABCDEF" == "0123456789" + "abcdef" + "ABCDEF";
  }

  /** A string of characters in a row. */
  lemma CharacterRange(s: string, first: char, c: char)
    requires s != "" && forall i | 0 <= i < |s| :: s[i] as int == first as int + i
    ensures c in s <==> first <= c <= s[|s| - 1]
  {
    if first <= c <= s[|s| - 1] {
      assert s[c as int - first as int] == c;
    }
  }

  /** Whatever case a name is written in, it is the same name. */
  lemma CaseDoesNotMatter(name: string, upper: string)
    requires |name| == |upper| && (forall i | 0 <= i < |name| :: !('A' <= name[i] <= 'Z'))
    requires forall i | 0 <= i < |name| :: upper[i] == name[i] || ('a' <= name[i] <= 'z' && upper[i] as int == name[i] as int - 32)
    ensures Lowered(upper) == Lowered(name) == name
  {
    forall i | 0 <= i < |name| ensures LowerCase(upper[i]) == name[i] == LowerCase(name[i]) {
    }
  }

  // --- What tags and comments do -----------------------------------------------------------------------------

  /** Outside quotes, only quotes and ">" matter. */
  lemma {:induction false} PlainSkipped(html: string, j: nat, k: nat)
    requires j <= k <= |html| && forall x | j <= x < k :: html[x] !in "\"'>"
    ensures TagEnd(html, j, None) == TagEnd(html, k, None)
    decreases k
  {
    if j < k {
      PlainSkipped(html, j, k - 1);
      assert html[k - 1] !in "\"'>";
    }
  }

  lemma {:induction false} QuoteSkipped(html: string, j: nat, k: nat, quote: char)
    requires j <= k < |html| && html[k] == quote && forall x | j <= x < k :: html[x] != quote
    ensures TagEnd(html, j, Some(quote)) == TagEnd(html, k + 1, None)
    decreases |html| - j
  {
    if j < k {
      QuoteSkipped(html, j + 1, k, quote);
    }
  }

  /** A quoted value is skipped as a whole, any ">" in it included. */
  lemma QuotedSkipped(html: string, j: nat, k: nat)
    requires j < k < |html| && html[j] in "\"'" && html[k] == html[j] && forall x | j < x < k :: html[x] != html[j]
    ensures TagEnd(html, j, None) == TagEnd(html, k + 1, None)
  {
    QuoteSkipped(html, j + 1, k, html[j]);
  }

  /** "<" and a name are written at `i`, with nothing after the name that could belong to it. */
  predicate OpensTag(html: string, i: nat, name: string) {
    && i + 1 + |name| < |html| && html[i] == '<' && html[i + 1..i + 1 + |name|] == name
    && name != "" && Letter(name[0]) && (forall c | c in name :: NameChar(c))
    && !NameChar(html[i + 1 + |name|])
  }

  /** A run of characters with `p` that is followed by none is a span. */
  lemma {:induction false} SpanIs(html: string, n: nat, run: string, p: char -> bool)
    requires n + |run| <= |html| && html[n..n + |run|] == run
    requires (forall c | c in run :: p(c)) && (n + |run| < |html| ==> !p(html[n + |run|]))
    ensures SpanEnd(html, n, p) == n + |run|
    decreases |run|
  {
    if run != "" {
      assert html[n] == html[n..n + |run|][0] == run[0] && run[0] in run;
      assert html[n + 1..n + |run|] == html[n..n + |run|][1..];
      SpanIs(html, n + 1, run[1..], p);
    }
  }

  lemma {:induction false} SpanHolds(s: string, i: nat, p: char -> bool)
    requires i <= |s|
    ensures forall k | i <= k < SpanEnd(s, i, p) :: p(s[k])
    decreases |s| - i
  {
    if i < |s| && p(s[i]) {
      SpanHolds(s, i + 1, p);
    }
  }

  lemma OpenedTag(html: string, i: nat, name: string)
    requires OpensTag(html, i, name)
    ensures TagAt(html, i) == Some(Tag(false, name)) && !MatchesAt(html, "<!--", i)
  {
    assert html[i + 1] == html[i + 1..i + 1 + |name|][0] == name[0];
    SpanIs(html, i + 1, name, NameChar);
  }

  /** No earlier place from `from` on has `t`. */
  predicate FirstAt(s: string, t: string, from: nat, c: nat) {
    from <= c && MatchesAt(s, t, c) && forall x | from <= x < c :: !MatchesAt(s, t, x)
  }

  predicate NeverAt(s: string, t: string, from: nat) {
    forall x | from <= x <= |s| :: !MatchesAt(s, t, x)
  }

  /**
   * An opening tag shows as a break if it is a block's, and as nothing otherwise; the scan goes on after
   * it, or, for an element whose content is not page text, at the first closing tag of that name, or at the
   * end of the page if there is none.
   */
  lemma OpenTagMeaning(html: string, rules: Rules, i: nat, name: string, close: nat)
    requires OpensTag(html, i, name)
    ensures var j, step := TagEnd(html, i + 1, None), StepAt(html, rules, i);
            && step.emit == (if Lowered(name) in rules.block then Break else Nothing)
            && (Lowered(name) !in rules.skip || html[j - 1] == '/' ==> step.next == j + 1)
            && (Lowered(name) in rules.skip && html[j - 1] != '/' && FirstAt(Lowered(html), "</" + Lowered(name), j + 1, close) ==>
                  step.next == close)
            && (Lowered(name) in rules.skip && html[j - 1] != '/' && NeverAt(Lowered(html), "</" + Lowered(name), j + 1) ==>
                  step.next == |html|)
  {
    OpenedTag(html, i, name);
    assert StepAt(html, rules, i) == TagStep(html, rules, i);
    AfterOpening(html, rules, Tag(false, name), TagEnd(html, i + 1, None), close);
  }

  lemma AfterOpening(html: string, rules: Rules, tag: Tag, j: nat, close: nat)
    requires 0 < j <= |html| && !tag.closing
    ensures Lowered(tag.name) !in rules.skip || html[j - 1] == '/' ==> AfterTag(html, rules, Some(tag), j) == j + 1
    ensures Lowered(tag.name) in rules.skip && html[j - 1] != '/' && FirstAt(Lowered(html), "</" + Lowered(tag.name), j + 1, close) ==>
              AfterTag(html, rules, Some(tag), j) == close
    ensures Lowered(tag.name) in rules.skip && html[j - 1] != '/' && NeverAt(Lowered(html), "</" + Lowered(tag.name), j + 1) ==>
              AfterTag(html, rules, Some(tag), j) == |html|
  {
    if NeverAt(Lowered(html), "</" + Lowered(tag.name), j + 1) {
      IndexOfNone(Lowered(html), "</" + Lowered(tag.name), j + 1);
    }
    if FirstAt(Lowered(html), "</" + Lowered(tag.name), j + 1, close) {
      IndexOfIs(Lowered(html), "</" + Lowered(tag.name), j + 1, close);
    }
  }

  /** A comment shows as nothing, and ends at the first "-->" after its start. */
  lemma CommentMeaning(html: string, rules: Rules, i: nat, end: nat)
    requires MatchesAt(html, "<!--", i) && FirstAt(html, "-->", i + 4, end)
    ensures StepAt(html, rules, i) == Step(end + 3, Nothing)
  {
    assert html[i] == html[i..i + 4][0] == '<';
    IndexOfIs(html, "-->", i + 4, end);
  }

  /** A comment that is never closed runs on to the end of the page. */
  lemma UnclosedComment(html: string, rules: Rules, i: nat)
    requires MatchesAt(html, "<!--", i) && forall x | i + 4 <= x :: !MatchesAt(html, "-->", x)
    ensures i < |html| && StepAt(html, rules, i) == Step(|html|, Nothing)
  {
    assert html[i] == html[i..i + 4][0] == '<';
    IndexOfNone(html, "-->", i + 4);
  }

  lemma {:induction false} StopsApart(html: string, rules: Rules, from: nat, i: nat, p: nat)
    requires StopsAt(html, rules, from, i) && i < |html| && i < p < StepAt(html, rules, i).next
    ensures !StopsAt(html, rules, from, p)
    decreases |html| - from
  {
    StopsLater(html, rules, from, i);
    if from == i {
      StopsLater(html, rules, StepAt(html, rules, i).next, p);
    } else {
      StopsApart(html, rules, StepAt(html, rules, from).next, i, p);
    }
  }

  /** Nothing of what one step passes over, such as a tag, a comment or a script, shows in the page text. */
  lemma NothingBetween(html: string, rules: Rules, i: nat, p: nat)
    requires StopsAt(html, rules, 0, i) && i < p < |html| && p < StepAt(html, rules, i).next
    ensures |PageText(html, rules).pos| == |PageText(html, rules).text|
    ensures From(PageText(html, rules), p) == ""
  {
    StopsApart(html, rules, 0, i, p);
    PageTextFrom(html, rules, p);
  }

  // --- Escaped text reads back as itself -----------------------------------------------------------------------

  /** The page text that shows one character as it is. */
  function EscapeChar(c: char): (r: string)
    ensures r != ""
  {
    if c == '&' then "&amp;" else if c == '<' then "&lt;" else [c]
  }

  function Escape(s: string): string {
    if s == "" then "" else EscapeChar(s[0]) + Escape(s[1..])
  }

  predicate DecodesXml(rules: Rules) {
    rules.decode("&amp;") == "&" && rules.decode("&lt;") == "<"
  }

  /** Where the characters of an escaped text that is written at `at` start. */
  function PlacesFrom(s: string, at: nat): (r: seq<nat>)
    ensures |r| == |s|
  {
    if s == "" then [] else [at] + PlacesFrom(s[1..], at + |EscapeChar(s[0])|)
  }

  function Places(s: string): (r: seq<nat>)
    ensures |r| == |s|
  {
    PlacesFrom(s, 0)
  }

  lemma {:induction false} EscapeConcat(s: string, t: string)
    ensures Escape(s + t) == Escape(s) + Escape(t)
  {
    if s == "" {
      assert s + t == t;
    } else {
      assert (s + t)[1..] == s[1..] + t;
      EscapeConcat(s[1..], t);
      Regroup(EscapeChar(s[0]), Escape(s[1..]), Escape(t));
    }
  }

  /** A character starts behind what the ones before it are escaped to. */
  lemma {:induction false} PlaceOf(s: string, at: nat, k: nat)
    requires k < |s|
    ensures PlacesFrom(s, at)[k] == at + |Escape(s[..k])|
  {
    if k > 0 {
      PlaceOf(s[1..], at + |EscapeChar(s[0])|, k - 1);
      assert s[..k][1..] == s[1..][..k - 1];
    }
  }

  lemma NamedReference(html: string, i: nat, name: string)
    requires name != "" && (forall k | 0 <= k < |name| :: Letter(name[k])) && MatchesAt(html, "&" + name + ";", i)
    ensures Reference(html, i) == Some(i + |name| + 2)
  {
    var r := "&" + name + ";";
    assert html[i..i + |r|][1] == html[i + 1] && r[1] == name[0];
    assert html[i + 1 + |name|] == html[i..i + |r|][1 + |name|] == r[1 + |name|] == ';';
    SliceOfSlice(html, i, i + |r|, 1, 1 + |name|);
    assert r[1..1 + |name|] == name;
    forall c | c in name ensures Alnum(c) {
    }
    SpanIs(html, i + 1, name, Alnum);
  }

  /** Where an escaped character is written, one step emits the character and goes past it. */
  lemma EscapedStep(html: string, rules: Rules, i: nat, c: char)
    requires DecodesXml(rules) && MatchesAt(html, EscapeChar(c), i)
    ensures StepAt(html, rules, i) == Step(i + |EscapeChar(c)|, Chars([c]))
  {
    var r := EscapeChar(c);
    assert html[i] == html[i..i + |r|][0] == r[0];
    if c == '&' {
      assert "&" + "amp" + ";" == r;
      NamedReference(html, i, "amp");
    } else if c == '<' {
      assert "&" + "lt" + ";" == r;
      NamedReference(html, i, "lt");
    }
  }

  lemma ScanDone(html: string, rules: Rules, out: Out)
    ensures Scan(html, rules, |html|, out) == out
  {
  }

  /** What is written after some text is written at its end, and the rest is written after both. */
  lemma WrittenAfter(before: string, x: string, rest: string)
    ensures MatchesAt(before + (x + rest), x, |before|)
    ensures before + (x + rest) == before + x + rest
  {
    assert before + (x + rest) == before + x + rest;
  }

  function AddChar(out: Out, c: char, at: nat): Out {
    Out(out.text + [c], out.pos + [at])
  }

  /** One step over an escaped character. */
  lemma ScanEscaped(html: string, rules: Rules, i: nat, next: nat, c: char, out: Out)
    requires DecodesXml(rules) && MatchesAt(html, EscapeChar(c), i) && next == i + |EscapeChar(c)|
    ensures Scan(html, rules, i, out) == Scan(html, rules, next, AddChar(out, c, i))
  {
    EscapedStep(html, rules, i, c);
    assert Repeat(i, 1) == [i];
  }

  /** What there is after some more text, of which the first character comes first. */
  function AddEscaped(out: Out, s: string, at: nat): Out {
    Out(out.text + s, out.pos + PlacesFrom(s, at))
  }

  lemma CharFirst(out: Out, s: string, at: nat, next: Out, after: nat)
    requires s != "" && next == AddChar(out, s[0], at) && after == at + |EscapeChar(s[0])|
    ensures AddEscaped(next, s[1..], after) == AddEscaped(out, s, at)
  {
    Regroup(out.text, [s[0]], s[1..]);
    Regroup(out.pos, [at], PlacesFrom(s[1..], after));
    assert [s[0]] + s[1..] == s;
  }

  lemma {:induction false} EscapedScan(html: string, before: string, at: nat, rules: Rules, s: string, out: Out, last: Out)
    requires DecodesXml(rules) && html == before + Escape(s) && at == |before| && last == AddEscaped(out, s, at)
    ensures Scan(html, rules, at, out) == last
    decreases |s|
  {
    if s == "" {
      ScanDone(html, rules, out);
      assert out.text + "" == out.text && out.pos + [] == out.pos;
    } else {
      var c, after := s[0], at + |EscapeChar(s[0])|;
      WrittenAfter(before, EscapeChar(c), Escape(s[1..]));
      CharFirst(out, s, at, AddChar(out, c, at), after);
      ScanEscaped(html, rules, at, after, c, out);
      EscapedScan(html, before + EscapeChar(c), after, rules, s[1..], AddChar(out, c, at), last);
    }
  }

  /** Escaped text reads as itself. */
  lemma EscapedPage(s: string, rules: Rules)
    requires DecodesXml(rules)
    ensures PageText(Escape(s), rules) == Out(s, Places(s))
  {
    assert "" + Escape(s) == Escape(s);
    assert "" + s == s && [] + Places(s) == Places(s);
    EscapedScan(Escape(s), "", 0, rules, s, Out("", []), Out(s, Places(s)));
  }

  lemma {:induction false} EscapeKeepsLines(s: string)
    ensures Newlines(Escape(s)) == Newlines(s)
  {
    if s != "" {
      EscapeKeepsLines(s[1..]);
      NewlinesConcat(EscapeChar(s[0]), Escape(s[1..]));
      NewlinesConcat([s[0]], s[1..]);
      assert s == [s[0]] + s[1..];
      NewlinesOfChar(s[0]);
    }
  }

  lemma NewlinesOfChar(c: char)
    ensures Newlines(EscapeChar(c)) == Newlines([c])
  {
    NewlinesConcat("&am", "p;");
    NewlinesConcat("&l", "t;");
    assert "&am" + "p;" == "&amp;" && "&l" + "t;" == "&lt;";
    assert "&am"[1..][1..] == "m" && "p;"[1..] == ";" && "&l"[1..] == "l" && "t;"[1..] == ";";
  }

  lemma PlaceLine(s: string, k: nat)
    requires k < |s|
    ensures LineOf(Escape(s), Places(s)[k]) == LineOf(s, k)
  {
    var x, y := s[..k], s[k..];
    assert s == x + y;
    PlaceOf(s, 0, k);
    EscapeConcat(x, y);
    EscapeKeepsLines(x);
    LineAfter(Escape(s), Escape(x), Escape(y), Places(s)[k]);
    LineAfter(s, x, y, k);
  }

  lemma LineAfter(text: string, before: string, rest: string, at: nat)
    requires text == before + rest && at == |before|
    ensures LineOf(text, at) == 1 + Newlines(before)
  {
    assert text[..at] == before;
  }

  lemma LineOfIndexIs(html: string, out: Out, k: nat)
    requires k < |out.pos|
    ensures LineOfIndex(html, out, k) == Some(LineOf(html, out.pos[k]))
  {
    LineBySearch(html, out.pos[k]);
  }

  /** Each of its characters is on its own line. */
  lemma EscapedLines(s: string, rules: Rules, k: nat, page: Out)
    requires DecodesXml(rules) && k < |s| && page == PageText(Escape(s), rules)
    ensures LineOfIndex(Escape(s), page, k) == Some(LineOf(s, k))
  {
    EscapedPage(s, rules);
    LineOfIndexIs(Escape(s), page, k);
    PlaceLine(s, k);
  }

  /** So the space over the escaped text is the space over the text, as far as text and lines go. */
  lemma EscapedSpace(s: string, rules: Rules, k: nat, page: TextSpace)
    requires DecodesXml(rules) && k < |s| && page == HtmlSpace(Escape(s), rules)
    ensures page.text == SourceSpace(s).text
    ensures page.toLine.value(k) == SourceSpace(s).toLine.value(k)
  {
    EscapedPage(s, rules);
    EscapedLines(s, rules, k, PageText(Escape(s), rules));
  }

  lemma {:induction false} PlainIsEscaped(s: string)
    requires '&' !in s && '<' !in s
    ensures Escape(s) == s
  {
    if s != "" {
      PlainIsEscaped(s[1..]);
      assert s == [s[0]] + s[1..];
    }
  }

  /** A page without "&" and "<" reads as it is written. */
  lemma PlainPage(s: string, rules: Rules)
    requires DecodesXml(rules) && '&' !in s && '<' !in s
    ensures PageText(s, rules).text == s
  {
    PlainIsEscaped(s);
    EscapedPage(s, rules);
  }
}
