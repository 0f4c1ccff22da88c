/**
 * Mapping a line range through a diff
 * (live/src/lib/comment-anchor.ts, "Line remapping").
 */
module LineRemap {
  import opened Wrappers
  import opened Text
  import opened Sorting

  datatype Kind = Add | Remove | Context

  /** A diff entry. Lines count from 1. */
  datatype Change = Change(kind: Kind, oldLine: Option<int>, newLine: Option<int>)

  function HasLineNumbers(changes: seq<Change>): bool {
    changes == [] || exists c | c in changes :: c.oldLine.Some? || c.newLine.Some?
  }

  // --- The code, for any list of changes ---------------------------------------

  datatype Target = Target(line: int, removed: bool)

  /** The first new line number in the rest of the diff. */
  function Landing(s: seq<Change>): Option<int> {
    if s == [] then None
    else if s[0].newLine.Some? then s[0].newLine
    else Landing(s[1..])
  }

  /** Remapping over the changes that are left; `delta` and `lastNew` sum up those before. */
  function RemapFrom(s: seq<Change>, line: int, delta: int, lastNew: int): Target {
    if s == [] then Target(line + delta, false)
    else
      var c := s[0];
      var last := if c.newLine.Some? then Max(lastNew, c.newLine.value) else lastNew;
      if c.oldLine.None? then RemapFrom(s[1..], line, delta, last)
      else if c.oldLine.value < line then
        var d := if c.kind.Context? && c.newLine.Some? then c.newLine.value - c.oldLine.value else delta;
        RemapFrom(s[1..], line, d, last)
      else if c.oldLine.value > line then Target(line + delta, false)
      else if c.kind.Context? && c.newLine.Some? then Target(c.newLine.value, false)
      else Target(match Landing(s[1..]) case Some(n) => n case None => Max(1, last + 1), true)
  }

  function RemapLine(changes: seq<Change>, line: int): Target {
    RemapFrom(changes, line, 0, 0)
  }

  method RemapLineLoop(changes: seq<Change>, line: int) returns (r: Target)
    ensures r == RemapLine(changes, line)
  {
    var delta, lastNew := 0, 0;
    for i := 0 to |changes|
      invariant RemapFrom(changes[i..], line, delta, lastNew) == RemapLine(changes, line)
    {
      var c := changes[i];
      assert changes[i..][0] == c && changes[i..][1..] == changes[i + 1..];
      if c.newLine.Some? {
        lastNew := Max(lastNew, c.newLine.value);
      }
      if c.oldLine.None? {
        continue;
      }
      if c.oldLine.value < line {
        if c.kind.Context? && c.newLine.Some? {
          delta := c.newLine.value - c.oldLine.value;
        }
        continue;
      }
      if c.oldLine.value == line {
        if c.kind.Context? && c.newLine.Some? {
          return Target(c.newLine.value, false);
        }
        for j := i + 1 to |changes|
          invariant Landing(changes[i + 1..]) == Landing(changes[j..])
        {
          assert changes[j..][0] == changes[j] && changes[j..][1..] == changes[j + 1..];
          if changes[j].newLine.Some? {
            return Target(changes[j].newLine.value, true);
          }
        }
        return Target(Max(1, lastNew + 1), true);
      }
      return Target(line + delta, false);
    }
    return Target(line + delta, false);
  }

  datatype Range = Range(lineStart: int, lineEnd: int, touched: bool, deleted: bool)

  predicate RemovedIn(lo: int, hi: int, c: Change) {
    c.kind.Remove? && c.oldLine.Some? && lo <= c.oldLine.value <= hi
  }

  predicate AddedIn(lo: int, hi: int, c: Change) {
    c.kind.Add? && c.newLine.Some? && lo < c.newLine.value <= hi
  }

  function CountRemoved(s: seq<Change>, lo: int, hi: int): nat {
    if s == [] then 0 else (if RemovedIn(lo, hi, s[0]) then 1 else 0) + CountRemoved(s[1..], lo, hi)
  }

  /** The index of the entry that removes `line`, or -1. */
  function RemovalIndex(s: seq<Change>, line: int): (r: int)
    ensures -1 <= r < |s|
    ensures r >= 0 ==> s[r].kind.Remove? && s[r].oldLine == Some(line)
    ensures r < 0 ==> forall c | c in s :: !(c.kind.Remove? && c.oldLine == Some(line))
  {
    if s == [] then -1
    else if s[0].kind.Remove? && s[0].oldLine == Some(line) then 0
    else
      var r := RemovalIndex(s[1..], line);
      if r < 0 then -1 else r + 1
  }

  function BlockStart(changes: seq<Change>, i: int): (r: int)
    requires -1 <= i < |changes|
    ensures r <= i && (i >= 0 ==> r >= 0) && (i < 0 ==> r == i)
    ensures forall k | r <= k < i :: !changes[k].kind.Context?
    ensures r > 0 ==> changes[r - 1].kind.Context?
  {
    if i > 0 && !changes[i - 1].kind.Context? then BlockStart(changes, i - 1) else i
  }

  function BlockEnd(changes: seq<Change>, i: int): (r: int)
    requires -1 <= i < |changes|
    ensures i <= r < |changes| && (i < 0 ==> r == i)
    ensures forall k | i < k <= r :: !changes[k].kind.Context?
    ensures 0 <= r < |changes| - 1 ==> changes[r + 1].kind.Context?
    decreases |changes| - i
  {
    if 0 <= i < |changes| - 1 && !changes[i + 1].kind.Context? then BlockEnd(changes, i + 1) else i
  }

  function AddedLines(s: seq<Change>): seq<int> {
    if s == [] then []
    else (if s[0].kind.Add? && s[0].newLine.Some? then [s[0].newLine.value] else []) + AddedLines(s[1..])
  }

  function MinOf(s: seq<int>): int
    requires s != []
  {
    if |s| == 1 then s[0] else Min(s[0], MinOf(s[1..]))
  }

  function MaxOf(s: seq<int>): int
    requires s != []
  {
    if |s| == 1 then s[0] else Max(s[0], MaxOf(s[1..]))
  }

  /** The new lines added by the change block that removed the lines from `lineStart` to `lineEnd`. */
  function BlockAdds(changes: seq<Change>, lineStart: int, lineEnd: int): seq<int> {
    var first, last := RemovalIndex(changes, lineStart), RemovalIndex(changes, lineEnd);
    AddsBetween(changes, first, last, BlockStart(changes, first), BlockEnd(changes, last))
  }

  function AddsBetween(changes: seq<Change>, first: int, last: int, lo: int, hi: int): seq<int>
    requires first >= 0 ==> 0 <= lo
    requires last >= 0 ==> hi < |changes|
  {
    if first < 0 || last < 0 || lo > hi then [] else AddedLines(changes[lo..hi + 1])
  }

  function RemapLineRange(changes: seq<Change>, lineStart: int, lineEnd: int): Range {
    var a, b := RemapLine(changes, lineStart), RemapLine(changes, lineEnd);
    var removed := CountRemoved(changes, lineStart, lineEnd);
    var start := a.line;
    var end := Max(start, if b.removed then b.line - 1 else b.line);
    if removed == lineEnd - lineStart + 1 then
      var added := BlockAdds(changes, lineStart, lineEnd);
      if added != [] then Range(MinOf(added), MaxOf(added), true, false)
      else Range(start, start, true, true)
    else
      Range(start, Max(start, end), removed > 0 || exists c | c in changes :: AddedIn(start, end, c), false)
  }

  method BlockStartLoop(changes: seq<Change>, first: int) returns (lo: int)
    requires -1 <= first < |changes|
    ensures lo == BlockStart(changes, first)
  {
    lo := first;
    while lo > 0 && !changes[lo - 1].kind.Context?
      invariant -1 <= lo < |changes| && BlockStart(changes, lo) == BlockStart(changes, first)
    {
      lo := lo - 1;
    }
  }

  method BlockEndLoop(changes: seq<Change>, last: int) returns (hi: int)
    requires -1 <= last < |changes|
    ensures hi == BlockEnd(changes, last)
  {
    hi := last;
    while hi >= 0 && hi < |changes| - 1 && !changes[hi + 1].kind.Context?
      invariant -1 <= hi < |changes| && BlockEnd(changes, hi) == BlockEnd(changes, last)
      decreases |changes| - hi
    {
      hi := hi + 1;
    }
  }

  method BlockAddsLoop(changes: seq<Change>, lineStart: int, lineEnd: int) returns (added: seq<int>)
    ensures added == BlockAdds(changes, lineStart, lineEnd)
  {
    var first, last := RemovalIndex(changes, lineStart), RemovalIndex(changes, lineEnd);
    var lo := BlockStartLoop(changes, first);
    var hi := BlockEndLoop(changes, last);
    return AddsBetween(changes, first, last, lo, hi);
  }

  /** The code, with the two walks to the ends of the change block as loops. */
  method RemapLineRangeLoop(changes: seq<Change>, lineStart: int, lineEnd: int) returns (r: Range)
    ensures r == RemapLineRange(changes, lineStart, lineEnd)
  {
    var a := RemapLineLoop(changes, lineStart);
    var b := RemapLineLoop(changes, lineEnd);
    var removed := CountRemoved(changes, lineStart, lineEnd);
    var start := a.line;
    var end := Max(start, if b.removed then b.line - 1 else b.line);
    if removed == lineEnd - lineStart + 1 {
      var added := BlockAddsLoop(changes, lineStart, lineEnd);
      if added != [] {
        return Range(MinOf(added), MaxOf(added), true, false);
      }
      return Range(start, start, true, true);
    }
    return Range(start, Max(start, end), removed > 0 || exists c | c in changes :: AddedIn(start, end, c), false);
  }

  // --- Edit scripts: what a diff means -------------------------------------------

  /**
   * `s` describes how the lines after the first `o` old ones became the lines after the first
   * `n` new ones. Unchanged lines may be left out, but only at the start, at the end, or
   * between two context lines: `gap` says whether they may be left out here. A complete
   * script leaves out nothing.
   */
  ghost predicate Script(s: seq<Change>, o: nat, n: nat, gap: bool, oldCount: nat, newCount: nat) {
    if s == [] then
      o <= oldCount && oldCount - o == newCount - n && (gap || o == oldCount)
    else
      var c := s[0];
      match c.kind
      case Context =>
        && c.oldLine.Some? && c.newLine.Some?
        && o < c.oldLine.value && c.oldLine.value - o == c.newLine.value - n
        && (gap || c.oldLine.value == o + 1)
        && Script(s[1..], c.oldLine.value, c.newLine.value, true, oldCount, newCount)
      case Remove =>
        c.oldLine == Some(o + 1) && c.newLine == None && Script(s[1..], o + 1, n, false, oldCount, newCount)
      case Add =>
        c.oldLine == None && c.newLine == Some(n + 1) && Script(s[1..], o, n + 1, false, oldCount, newCount)
  }

  ghost predicate EditScript(s: seq<Change>, oldCount: nat, newCount: nat) {
    Script(s, 0, 0, true, oldCount, newCount)
  }

  /** What became of an old line: its new number, or gone after so many new lines. */
  datatype Fate = Kept(line: int) | Gone(after: int)

  ghost function FateFrom(s: seq<Change>, o: int, n: int, line: int): Fate {
    if s == [] then Kept(line - o + n)
    else
      var c := s[0];
      match c.kind
      case Context =>
        if c.oldLine.None? || c.newLine.None? then Gone(n)
        else if line <= c.oldLine.value then Kept(line - o + n)
        else FateFrom(s[1..], c.oldLine.value, c.newLine.value, line)
      case Remove => if line == o + 1 then Gone(n) else FateFrom(s[1..], o + 1, n, line)
      case Add => FateFrom(s[1..], o, n + 1, line)
  }

  /** What an edit script says became of an old line, read off entry by entry. */
  ghost function FateOf(s: seq<Change>, line: int): Fate {
    FateFrom(s, 0, 0, line)
  }

  /** The texts agree wherever the script says a line was kept. */
  ghost predicate Describes<T>(s: seq<Change>, o: nat, n: nat, gap: bool, was: seq<T>, now: seq<T>)
    requires Script(s, o, n, gap, |was|, |now|)
  {
    if s == [] then
      was[o..] == now[n..]
    else
      var c := s[0];
      match c.kind
      case Context =>
        var a, b := c.oldLine.value, c.newLine.value;
        ScriptBounds(s[1..], a, b, true, |was|, |now|);
        && was[o..a] == now[n..b]
        && Describes(s[1..], a, b, true, was, now)
      case Remove => Describes(s[1..], o + 1, n, false, was, now)
      case Add => Describes(s[1..], o, n + 1, false, was, now)
  }

  lemma {:induction false} ScriptBounds(s: seq<Change>, o: nat, n: nat, gap: bool, oldCount: nat, newCount: nat)
    requires Script(s, o, n, gap, oldCount, newCount)
    ensures o <= oldCount && n <= newCount
  {
    if s != [] {
      match s[0].kind
      case Context => ScriptBounds(s[1..], s[0].oldLine.value, s[0].newLine.value, true, oldCount, newCount);
      case Remove => ScriptBounds(s[1..], o + 1, n, false, oldCount, newCount);
      case Add => ScriptBounds(s[1..], o, n + 1, false, oldCount, newCount);
    }
  }

  function After(f: Fate): int {
    match f case Kept(m) => m case Gone(k) => k
  }

  /** Fates lie in the new file, and come in the order of the old lines. */
  lemma {:induction false} FateBounds(s: seq<Change>, o: nat, n: nat, gap: bool, oldCount: nat, newCount: nat, line: int)
    requires Script(s, o, n, gap, oldCount, newCount) && o < line <= oldCount
    ensures n <= After(FateFrom(s, o, n, line)) <= newCount
    ensures FateFrom(s, o, n, line).Kept? ==> n < FateFrom(s, o, n, line).line
  {
    if s != [] {
      match s[0].kind
      case Context =>
        var a, b := s[0].oldLine.value, s[0].newLine.value;
        ScriptBounds(s[1..], a, b, true, oldCount, newCount);
        if a < line {
          FateBounds(s[1..], a, b, true, oldCount, newCount, line);
        }
      case Remove =>
        ScriptBounds(s[1..], o + 1, n, false, oldCount, newCount);
        if line != o + 1 {
          FateBounds(s[1..], o + 1, n, false, oldCount, newCount, line);
        }
      case Add => FateBounds(s[1..], o, n + 1, false, oldCount, newCount, line);
    }
  }

  lemma {:induction false} FateOrder(s: seq<Change>, o: nat, n: nat, gap: bool, oldCount: nat, newCount: nat, line: int, later: int)
    requires Script(s, o, n, gap, oldCount, newCount) && o < line < later <= oldCount
    ensures var f, g := FateFrom(s, o, n, line), FateFrom(s, o, n, later);
            After(f) <= After(g) && (g.Kept? ==> After(f) < After(g))
  {
    if s != [] {
      match s[0].kind
      case Context =>
        var a, b := s[0].oldLine.value, s[0].newLine.value;
        if a < line {
          FateOrder(s[1..], a, b, true, oldCount, newCount, line, later);
        } else if a < later {
          FateBounds(s[1..], a, b, true, oldCount, newCount, later);
        }
      case Remove =>
        FateBounds(s[1..], o + 1, n, false, oldCount, newCount, later);
        if line != o + 1 {
          FateOrder(s[1..], o + 1, n, false, oldCount, newCount, line, later);
        }
      case Add => FateOrder(s[1..], o, n + 1, false, oldCount, newCount, line, later);
    }
  }

  // --- remapLine computes fates ---------------------------------------------------

  /** After a removed line, the next new line to come is the one right after those seen. */
  lemma {:induction false} LandingNext(s: seq<Change>, o: nat, n: nat, oldCount: nat, newCount: nat)
    requires Script(s, o, n, false, oldCount, newCount)
    ensures Landing(s) == None || Landing(s) == Some(n + 1)
  {
    if s != [] && s[0].kind.Remove? {
      LandingNext(s[1..], o + 1, n, oldCount, newCount);
    }
  }

  lemma {:induction false} RemapFromMeaning(s: seq<Change>, o: nat, n: nat, gap: bool, oldCount: nat, newCount: nat, line: int, delta: int)
    requires Script(s, o, n, gap, oldCount, newCount) && o < line <= oldCount
    requires gap ==> delta == n - o
    ensures RemapFrom(s, line, delta, n)
            == match FateFrom(s, o, n, line) case Kept(m) => Target(m, false) case Gone(k) => Target(k + 1, true)
  {
    if s != [] {
      match s[0].kind
      case Context =>
        var a, b := s[0].oldLine.value, s[0].newLine.value;
        if a < line {
          RemapFromMeaning(s[1..], a, b, true, oldCount, newCount, line, b - a);
        }
      case Remove =>
        if line == o + 1 {
          LandingNext(s[1..], o + 1, n, oldCount, newCount);
        } else {
          RemapFromMeaning(s[1..], o + 1, n, false, oldCount, newCount, line, delta);
        }
      case Add => RemapFromMeaning(s[1..], o, n + 1, false, oldCount, newCount, line, delta);
    }
  }

  /** `remapLine` gives a kept line its new number, and a removed one the place right after what preceded it. */
  lemma {:induction false} RemapLineMeaning(changes: seq<Change>, oldCount: nat, newCount: nat, line: int)
    requires EditScript(changes, oldCount, newCount) && 1 <= line <= oldCount
    ensures RemapLine(changes, line)
            == match FateOf(changes, line) case Kept(m) => Target(m, false) case Gone(k) => Target(k + 1, true)
    ensures FateOf(changes, line).Kept? ==> 1 <= RemapLine(changes, line).line <= newCount
    ensures FateOf(changes, line).Gone? ==> 1 <= RemapLine(changes, line).line <= newCount + 1
  {
    RemapFromMeaning(changes, 0, 0, true, oldCount, newCount, line, 0);
    FateBounds(changes, 0, 0, true, oldCount, newCount, line);
  }

  lemma RemapLineMonotone(changes: seq<Change>, oldCount: nat, newCount: nat, line: int, later: int)
    requires EditScript(changes, oldCount, newCount) && 1 <= line <= later <= oldCount
    ensures RemapLine(changes, line).line <= RemapLine(changes, later).line
  {
    RemapLineMeaning(changes, oldCount, newCount, line);
    RemapLineMeaning(changes, oldCount, newCount, later);
    if line < later {
      FateOrder(changes, 0, 0, true, oldCount, newCount, line, later);
    }
  }

  // --- Counting removals -----------------------------------------------------------

  ghost predicate AllGone(s: seq<Change>, o: int, n: int, lo: int, hi: int) {
    forall l | lo <= l <= hi :: FateFrom(s, o, n, l).Gone?
  }

  ghost predicate AllKept(s: seq<Change>, o: int, n: int, lo: int, hi: int) {
    forall l | lo <= l <= hi :: FateFrom(s, o, n, l).Kept?
  }

  lemma SameFates(s: seq<Change>, o: int, n: int, t: seq<Change>, p: int, m: int, lo: int, hi: int)
    requires forall l | lo <= l <= hi :: FateFrom(s, o, n, l) == FateFrom(t, p, m, l)
    ensures AllGone(s, o, n, lo, hi) <==> AllGone(t, p, m, lo, hi)
    ensures AllKept(s, o, n, lo, hi) <==> AllKept(t, p, m, lo, hi)
  {
  }

  /** The number of removal entries for a range tells "all gone" and "all kept" apart from the rest. */
  lemma {:induction false} CountMeaning(s: seq<Change>, o: nat, n: nat, gap: bool, oldCount: nat, newCount: nat, lo: int, hi: int)
    requires Script(s, o, n, gap, oldCount, newCount) && hi <= oldCount
    ensures var base := Max(lo, o + 1);
            && CountRemoved(s, lo, hi) <= Max(0, hi - base + 1)
            && (base <= hi ==> (CountRemoved(s, lo, hi) == hi - base + 1 <==> AllGone(s, o, n, base, hi)))
            && (CountRemoved(s, lo, hi) == 0 <==> AllKept(s, o, n, base, hi))
    decreases s, 1
  {
    var base := Max(lo, o + 1);
    if s != [] {
      match s[0].kind
      case Context => CountContext(s, o, n, gap, oldCount, newCount, lo, hi);
      case Remove =>
        CountMeaning(s[1..], o + 1, n, false, oldCount, newCount, lo, hi);
        SameFates(s, o, n, s[1..], o + 1, n, Max(lo, o + 2), hi);
        assert FateFrom(s, o, n, o + 1).Gone?;
      case Add =>
        CountMeaning(s[1..], o, n + 1, false, oldCount, newCount, lo, hi);
        SameFates(s, o, n, s[1..], o, n + 1, base, hi);
    } else if base <= hi {
      assert FateFrom(s, o, n, base).Kept?;
    }
  }

  lemma {:induction false} CountContext(s: seq<Change>, o: nat, n: nat, gap: bool, oldCount: nat, newCount: nat, lo: int, hi: int)
    requires Script(s, o, n, gap, oldCount, newCount) && hi <= oldCount
    requires s != [] && s[0].kind.Context?
    ensures var base := Max(lo, o + 1);
            && CountRemoved(s, lo, hi) <= Max(0, hi - base + 1)
            && (base <= hi ==> (CountRemoved(s, lo, hi) == hi - base + 1 <==> AllGone(s, o, n, base, hi)))
            && (CountRemoved(s, lo, hi) == 0 <==> AllKept(s, o, n, base, hi))
    decreases s, 0
  {
    var base, t, a, b := Max(lo, o + 1), s[1..], s[0].oldLine.value, s[0].newLine.value;
    var rest := Max(lo, a + 1);
    CountMeaning(t, a, b, true, oldCount, newCount, lo, hi);
    assert forall l | base <= l <= a :: FateFrom(s, o, n, l).Kept?;
    SameFates(s, o, n, t, a, b, rest, hi);
    if base <= hi && base <= a {
      assert FateFrom(s, o, n, base).Kept?;
      assert !AllGone(s, o, n, base, hi);
      assert CountRemoved(s, lo, hi) <= Max(0, hi - rest + 1) < hi - base + 1;
    }
  }

  // --- Entries and fates -------------------------------------------------------------

  /** Where the script stands before entry `k`. */
  lemma {:induction false} ScriptAt(s: seq<Change>, o: nat, n: nat, gap: bool, oldCount: nat, newCount: nat, k: nat)
    returns (p: nat, m: nat, g: bool)
    requires Script(s, o, n, gap, oldCount, newCount) && k <= |s|
    ensures Script(s[k..], p, m, g, oldCount, newCount)
    ensures o <= p && n <= m
    ensures forall l | p < l :: FateFrom(s, o, n, l) == FateFrom(s[k..], p, m, l)
    ensures forall j | 0 <= j < k :: s[j].oldLine.Some? ==> s[j].oldLine.value <= p
  {
    if k == 0 {
      p, m, g := o, n, gap;
      assert s[0..] == s;
    } else {
      var t := s[1..];
      match s[0].kind
      case Context => p, m, g := ScriptAt(t, s[0].oldLine.value, s[0].newLine.value, true, oldCount, newCount, k - 1);
      case Remove => p, m, g := ScriptAt(t, o + 1, n, false, oldCount, newCount, k - 1);
      case Add => p, m, g := ScriptAt(t, o, n + 1, false, oldCount, newCount, k - 1);
      assert t[k - 1..] == s[k..];
      forall j | 0 <= j < k ensures s[j].oldLine.Some? ==> s[j].oldLine.value <= p {
        assert j > 0 ==> s[j] == t[j - 1];
      }
    }
  }

  /** An entry says what its fate says, and old line numbers increase along the script. */
  lemma {:induction false} EntryFate(changes: seq<Change>, oldCount: nat, newCount: nat, k: nat)
    requires EditScript(changes, oldCount, newCount) && k < |changes|
    ensures var c := changes[k];
            && (c.kind.Context? ==> c.oldLine.Some? && c.newLine.Some? && FateOf(changes, c.oldLine.value) == Kept(c.newLine.value))
            && (c.kind.Remove? ==> c.oldLine.Some? && FateOf(changes, c.oldLine.value).Gone?)
            && (c.oldLine.Some? ==> forall j | 0 <= j < k :: changes[j].oldLine.Some? ==> changes[j].oldLine.value < c.oldLine.value)
  {
    var p, m, g := ScriptAt(changes, 0, 0, true, oldCount, newCount, k);
    assert changes[k..][0] == changes[k];
  }

  /** A kept line does not carry the number of an added one. */
  lemma {:induction false} KeptNotAdded(s: seq<Change>, o: nat, n: nat, gap: bool, oldCount: nat, newCount: nat, line: int, c: Change)
    requires Script(s, o, n, gap, oldCount, newCount) && o < line <= oldCount
    requires c in s && c.kind.Add? && FateFrom(s, o, n, line).Kept?
    ensures c.newLine.Some? && n < c.newLine.value && c.newLine.value != FateFrom(s, o, n, line).line
  {
    match s[0].kind
    case Context =>
      var a, b := s[0].oldLine.value, s[0].newLine.value;
      AddedAfter(s[1..], a, b, true, oldCount, newCount, c);
      if a < line {
        KeptNotAdded(s[1..], a, b, true, oldCount, newCount, line, c);
      }
    case Remove =>
      if line != o + 1 {
        KeptNotAdded(s[1..], o + 1, n, false, oldCount, newCount, line, c);
      }
    case Add =>
      FateBounds(s[1..], o, n + 1, false, oldCount, newCount, line);
      if c != s[0] {
        KeptNotAdded(s[1..], o, n + 1, false, oldCount, newCount, line, c);
      }
  }

  lemma {:induction false} AddedAfter(s: seq<Change>, o: nat, n: nat, gap: bool, oldCount: nat, newCount: nat, c: Change)
    requires Script(s, o, n, gap, oldCount, newCount) && c in s && c.kind.Add?
    ensures c.newLine.Some? && n < c.newLine.value
  {
    if c != s[0] {
      match s[0].kind
      case Context => AddedAfter(s[1..], s[0].oldLine.value, s[0].newLine.value, true, oldCount, newCount, c);
      case Remove => AddedAfter(s[1..], o + 1, n, false, oldCount, newCount, c);
      case Add => AddedAfter(s[1..], o, n + 1, false, oldCount, newCount, c);
    }
  }

  /** New lines skipped before the next kept old line were added. */
  lemma {:induction false} SkippedWereAdded(s: seq<Change>, o: nat, n: nat, gap: bool, oldCount: nat, newCount: nat, x: int)
    requires Script(s, o, n, gap, oldCount, newCount) && o < oldCount
    requires FateFrom(s, o, n, o + 1).Kept? && n < x < FateFrom(s, o, n, o + 1).line
    ensures exists c :: c in s && c.kind.Add? && c.newLine == Some(x)
  {
    if s != [] && s[0].kind.Add? {
      if x == n + 1 {
        assert s[0] in s;
      } else {
        SkippedWereAdded(s[1..], o, n + 1, false, oldCount, newCount, x);
        var c :| c in s[1..] && c.kind.Add? && c.newLine == Some(x);
        assert c in s;
      }
    }
  }

  lemma {:induction false} BetweenWereAdded(s: seq<Change>, o: nat, n: nat, gap: bool, oldCount: nat, newCount: nat, line: int, x: int)
    requires Script(s, o, n, gap, oldCount, newCount) && o < line < oldCount
    requires FateFrom(s, o, n, line).Kept? && FateFrom(s, o, n, line + 1).Kept?
    requires FateFrom(s, o, n, line).line < x < FateFrom(s, o, n, line + 1).line
    ensures exists c :: c in s && c.kind.Add? && c.newLine == Some(x)
  {
    if s != [] {
      var t := s[1..];
      match s[0].kind
      case Context =>
        var a, b := s[0].oldLine.value, s[0].newLine.value;
        if a < line {
          BetweenWereAdded(t, a, b, true, oldCount, newCount, line, x);
        } else if a == line {
          SkippedWereAdded(t, a, b, true, oldCount, newCount, x);
        }
      case Remove => BetweenWereAdded(t, o + 1, n, false, oldCount, newCount, line, x);
      case Add => BetweenWereAdded(t, o, n + 1, false, oldCount, newCount, line, x);
      var c :| c in t && c.kind.Add? && c.newLine == Some(x);
      assert c in s;
    }
  }

  // --- Theorems about ranges -----------------------------------------------------------

  ghost predicate SomeKept(changes: seq<Change>, lineStart: int, lineEnd: int) {
    exists l | lineStart <= l <= lineEnd :: FateOf(changes, l).Kept?
  }

  /** When some line survives, the range is spanned by the fates of its ends. */
  lemma {:induction false} RangeEnds(changes: seq<Change>, oldCount: nat, newCount: nat, lineStart: int, lineEnd: int)
    requires EditScript(changes, oldCount, newCount) && 1 <= lineStart <= lineEnd <= oldCount
    requires SomeKept(changes, lineStart, lineEnd)
    ensures var r := RemapLineRange(changes, lineStart, lineEnd);
            && !r.deleted
            && r.lineStart == (match FateOf(changes, lineStart) case Kept(m) => m case Gone(k) => k + 1)
            && r.lineEnd == After(FateOf(changes, lineEnd))
            && 1 <= r.lineStart <= r.lineEnd <= newCount
  {
    var l :| lineStart <= l <= lineEnd && FateOf(changes, l).Kept?;
    RemapLineMeaning(changes, oldCount, newCount, lineStart);
    RemapLineMeaning(changes, oldCount, newCount, lineEnd);
    if lineStart < l {
      FateOrder(changes, 0, 0, true, oldCount, newCount, lineStart, l);
    }
    if l < lineEnd {
      FateOrder(changes, 0, 0, true, oldCount, newCount, l, lineEnd);
    }
    FateBounds(changes, 0, 0, true, oldCount, newCount, lineEnd);
    CountMeaning(changes, 0, 0, true, oldCount, newCount, lineStart, lineEnd);
    assert !AllGone(changes, 0, 0, lineStart, lineEnd);
  }

  /** A surviving line of the range stays inside the remapped range, which stays inside the new file. */
  lemma SurvivorsStayInside(changes: seq<Change>, oldCount: nat, newCount: nat, lineStart: int, lineEnd: int, line: int)
    requires EditScript(changes, oldCount, newCount) && 1 <= lineStart <= line <= lineEnd <= oldCount
    requires FateOf(changes, line).Kept?
    ensures var r := RemapLineRange(changes, lineStart, lineEnd);
            && !r.deleted
            && 1 <= r.lineStart <= FateOf(changes, line).line <= r.lineEnd <= newCount
  {
    RangeEnds(changes, oldCount, newCount, lineStart, lineEnd);
    if lineStart < line {
      FateOrder(changes, 0, 0, true, oldCount, newCount, lineStart, line);
    }
    if line < lineEnd {
      FateOrder(changes, 0, 0, true, oldCount, newCount, line, lineEnd);
    }
  }

  /** Every line of the range was kept, with the same shift. */
  ghost predicate MovedAsOne(changes: seq<Change>, lineStart: int, lineEnd: int, to: int) {
    forall l | lineStart <= l <= lineEnd :: FateOf(changes, l) == Kept(l - lineStart + to)
  }

  /** "Untouched" says exactly that the lines of the range moved as one, onto the range reported. */
  lemma {:induction false} UntouchedMeaning(changes: seq<Change>, oldCount: nat, newCount: nat, lineStart: int, lineEnd: int)
    requires EditScript(changes, oldCount, newCount) && 1 <= lineStart <= lineEnd <= oldCount
    ensures var r := RemapLineRange(changes, lineStart, lineEnd);
            && (!r.touched && !r.deleted <==> exists to :: MovedAsOne(changes, lineStart, lineEnd, to))
            && (!r.touched && !r.deleted ==>
                  r.lineEnd - r.lineStart == lineEnd - lineStart && MovedAsOne(changes, lineStart, lineEnd, r.lineStart))
  {
    var r := RemapLineRange(changes, lineStart, lineEnd);
    CountMeaning(changes, 0, 0, true, oldCount, newCount, lineStart, lineEnd);
    if !r.touched && !r.deleted {
      assert AllKept(changes, 0, 0, lineStart, lineEnd);
      assert FateOf(changes, lineStart).Kept?;
      RangeEnds(changes, oldCount, newCount, lineStart, lineEnd);
      UntouchedStep(changes, oldCount, newCount, lineStart, lineEnd, lineEnd);
      assert MovedAsOne(changes, lineStart, lineEnd, r.lineStart);
    }
    if to :| MovedAsOne(changes, lineStart, lineEnd, to) {
      assert FateOf(changes, lineStart) == Kept(to) && FateOf(changes, lineEnd) == Kept(lineEnd - lineStart + to);
      forall l | lineStart <= l <= lineEnd ensures FateFrom(changes, 0, 0, l).Kept? {
        assert FateOf(changes, l).Kept?;
      }
      RangeEnds(changes, oldCount, newCount, lineStart, lineEnd);
      forall c | c in changes ensures !AddedIn(r.lineStart, r.lineEnd, c) {
        if AddedIn(r.lineStart, r.lineEnd, c) {
          var line := c.newLine.value - to + lineStart;
          assert FateOf(changes, line).Kept?;
          KeptNotAdded(changes, 0, 0, true, oldCount, newCount, line, c);
        }
      }
    }
  }

  lemma {:induction false} UntouchedStep(changes: seq<Change>, oldCount: nat, newCount: nat, lineStart: int, lineEnd: int, upTo: int)
    requires EditScript(changes, oldCount, newCount) && 1 <= lineStart <= upTo <= lineEnd <= oldCount
    requires AllKept(changes, 0, 0, lineStart, lineEnd)
    requires var r := RemapLineRange(changes, lineStart, lineEnd);
             && r.lineStart == FateOf(changes, lineStart).line
             && r.lineEnd == FateOf(changes, lineEnd).line
             && forall c | c in changes :: !AddedIn(r.lineStart, r.lineEnd, c)
    ensures MovedAsOne(changes, lineStart, upTo, RemapLineRange(changes, lineStart, lineEnd).lineStart)
    decreases upTo
  {
    if lineStart < upTo {
      var r := RemapLineRange(changes, lineStart, lineEnd);
      UntouchedStep(changes, oldCount, newCount, lineStart, lineEnd, upTo - 1);
      var f, g := FateOf(changes, upTo - 1), FateOf(changes, upTo);
      assert f == Kept(upTo - 1 - lineStart + r.lineStart) && g.Kept?;
      FateOrder(changes, 0, 0, true, oldCount, newCount, upTo - 1, upTo);
      if upTo < lineEnd {
        FateOrder(changes, 0, 0, true, oldCount, newCount, upTo, lineEnd);
      }
      if f.line + 1 < g.line {
        BetweenWereAdded(changes, 0, 0, true, oldCount, newCount, upTo - 1, f.line + 1);
      }
    }
  }

  /** Kept lines have the same text, when the script describes the two texts. */
  lemma {:induction false} KeptText<T>(s: seq<Change>, o: nat, n: nat, gap: bool, was: seq<T>, now: seq<T>, line: int)
    requires Script(s, o, n, gap, |was|, |now|) && Describes(s, o, n, gap, was, now)
    requires o < line <= |was| && FateFrom(s, o, n, line).Kept?
    ensures 1 <= FateFrom(s, o, n, line).line <= |now|
    ensures now[FateFrom(s, o, n, line).line - 1] == was[line - 1]
  {
    FateBounds(s, o, n, gap, |was|, |now|, line);
    if s == [] {
      assert was[o..][line - 1 - o] == now[n..][line - 1 - o];
    } else {
      match s[0].kind
      case Context =>
        var a, b := s[0].oldLine.value, s[0].newLine.value;
        ScriptBounds(s[1..], a, b, true, |was|, |now|);
        if a < line {
          KeptText(s[1..], a, b, true, was, now, line);
        } else {
          assert was[o..a][line - 1 - o] == now[n..b][line - 1 - o];
        }
      case Remove => KeptText(s[1..], o + 1, n, false, was, now, line);
      case Add => KeptText(s[1..], o, n + 1, false, was, now, line);
    }
  }

  /** Lines that moved as one have the same texts, one by one. */
  lemma {:induction false} MovedText<T>(changes: seq<Change>, was: seq<T>, now: seq<T>, lineStart: int, lineEnd: int, to: int)
    requires EditScript(changes, |was|, |now|) && Describes(changes, 0, 0, true, was, now)
    requires 1 <= lineStart <= lineEnd + 1 <= |was| + 1 && 1 <= to <= to + lineEnd - lineStart + 1 <= |now| + 1
    requires MovedAsOne(changes, lineStart, lineEnd, to)
    ensures now[to - 1..to + lineEnd - lineStart] == was[lineStart - 1..lineEnd]
    decreases lineEnd - lineStart + 1
  {
    if lineStart <= lineEnd {
      var last := to + lineEnd - lineStart;
      MovedText(changes, was, now, lineStart, lineEnd - 1, to);
      assert FateOf(changes, lineEnd) == Kept(last);
      KeptText(changes, 0, 0, true, was, now, lineEnd);
      assert now[to - 1..last] == now[to - 1..last - 1] + [now[last - 1]];
      assert was[lineStart - 1..lineEnd] == was[lineStart - 1..lineEnd - 1] + [was[lineEnd - 1]];
    }
  }

  /** Untouched means unchanged: as many lines, with the same text one by one. */
  lemma UntouchedMeansUnchanged<T>(changes: seq<Change>, was: seq<T>, now: seq<T>, lineStart: int, lineEnd: int)
    requires EditScript(changes, |was|, |now|) && Describes(changes, 0, 0, true, was, now)
    requires 1 <= lineStart <= lineEnd <= |was|
    requires !RemapLineRange(changes, lineStart, lineEnd).touched && !RemapLineRange(changes, lineStart, lineEnd).deleted
    ensures var r := RemapLineRange(changes, lineStart, lineEnd);
            && 1 <= r.lineStart <= r.lineEnd <= |now|
            && now[r.lineStart - 1..r.lineEnd] == was[lineStart - 1..lineEnd]
  {
    var r := RemapLineRange(changes, lineStart, lineEnd);
    UntouchedMeaning(changes, |was|, |now|, lineStart, lineEnd);
    assert FateOf(changes, lineStart).Kept?;
    RangeEnds(changes, |was|, |now|, lineStart, lineEnd);
    MovedText(changes, was, now, lineStart, lineEnd, r.lineStart);
  }

  // --- Ranges that were removed altogether ----------------------------------------------

  /** A maximal run of entries without a context line. */
  ghost predicate Block(changes: seq<Change>, lo: nat, hi: nat) {
    && lo <= hi <= |changes|
    && (forall k | lo <= k < hi :: !changes[k].kind.Context?)
    && (lo > 0 ==> changes[lo - 1].kind.Context?)
    && (hi < |changes| ==> changes[hi].kind.Context?)
  }

  /** The lines added in a run of entries without context are numbered in a row. */
  lemma {:induction false} AddsInARow(s: seq<Change>, o: nat, n: nat, gap: bool, oldCount: nat, newCount: nat, k: nat)
    requires Script(s, o, n, gap, oldCount, newCount) && k <= |s|
    requires forall j | 0 <= j < k :: !s[j].kind.Context?
    ensures var added := AddedLines(s[..k]);
            && n + |added| <= newCount
            && forall j | 0 <= j < |added| :: added[j] == n + 1 + j
  {
    ScriptBounds(s, o, n, gap, oldCount, newCount);
    if k > 0 {
      var t := s[1..];
      assert s[..k][1..] == t[..k - 1] && s[..k][0] == s[0];
      assert forall j | 0 <= j < k - 1 :: t[j] == s[j + 1];
      if s[0].kind.Remove? {
        AddsInARow(t, o + 1, n, false, oldCount, newCount, k - 1);
      } else {
        AddsInARow(t, o, n + 1, false, oldCount, newCount, k - 1);
      }
    }
  }

  lemma {:induction false} RowEnds(added: seq<int>, first: int)
    requires added != [] && forall j | 0 <= j < |added| :: added[j] == first + j
    ensures MinOf(added) == first && MaxOf(added) == first + |added| - 1
    ensures forall m :: first <= m < first + |added| <==> m in added
  {
    if |added| > 1 {
      RowEnds(added[1..], first + 1);
    }
    forall m | first <= m < first + |added| ensures m in added {
      assert added[m - first] == m;
    }
  }

  lemma {:induction false} RemovalListed(s: seq<Change>, o: nat, n: nat, gap: bool, oldCount: nat, newCount: nat, line: int)
    requires Script(s, o, n, gap, oldCount, newCount) && o < line <= oldCount && FateFrom(s, o, n, line).Gone?
    ensures Change(Remove, Some(line), None) in s
  {
    match s[0].kind
    case Context => RemovalListed(s[1..], s[0].oldLine.value, s[0].newLine.value, true, oldCount, newCount, line);
    case Remove =>
      if line != o + 1 {
        RemovalListed(s[1..], o + 1, n, false, oldCount, newCount, line);
      } else {
        assert s[0] == Change(Remove, Some(line), None);
      }
    case Add => RemovalListed(s[1..], o, n + 1, false, oldCount, newCount, line);
  }

  /** The run of entries found by walking outward from the first and last removed line is one block. */
  lemma {:induction false} OneBlock(changes: seq<Change>, oldCount: nat, newCount: nat, lineStart: int, lineEnd: int)
    requires EditScript(changes, oldCount, newCount) && 1 <= lineStart <= lineEnd <= oldCount
    requires AllGone(changes, 0, 0, lineStart, lineEnd)
    ensures var first, last := RemovalIndex(changes, lineStart), RemovalIndex(changes, lineEnd);
            && 0 <= first <= last
            && Block(changes, BlockStart(changes, first), BlockEnd(changes, last) + 1)
  {
    var first, last := RemovalIndex(changes, lineStart), RemovalIndex(changes, lineEnd);
    assert FateOf(changes, lineStart).Gone? && FateOf(changes, lineEnd).Gone?;
    RemovalListed(changes, 0, 0, true, oldCount, newCount, lineStart);
    RemovalListed(changes, 0, 0, true, oldCount, newCount, lineEnd);
    EntryFate(changes, oldCount, newCount, first);
    EntryFate(changes, oldCount, newCount, last);
    var lo, hi := BlockStart(changes, first), BlockEnd(changes, last);
    forall k | lo <= k <= hi ensures !changes[k].kind.Context? {
      if first < k < last {
        EntryFate(changes, oldCount, newCount, k);
      }
    }
  }

  lemma {:induction false} RemovalEntry(s: seq<Change>, o: nat, n: nat, gap: bool, oldCount: nat, newCount: nat, k: nat)
    requires Script(s, o, n, gap, oldCount, newCount) && k < |s| && s[k].kind.Remove?
    ensures s[k].newLine == None
  {
    var p, m, g := ScriptAt(s, o, n, gap, oldCount, newCount, k);
    assert s[k..][0] == s[k];
  }

  lemma RemovedRange(changes: seq<Change>, oldCount: nat, newCount: nat, lineStart: int, lineEnd: int)
    requires EditScript(changes, oldCount, newCount) && 1 <= lineStart <= lineEnd <= oldCount
    requires AllGone(changes, 0, 0, lineStart, lineEnd)
    ensures var r, added := RemapLineRange(changes, lineStart, lineEnd), BlockAdds(changes, lineStart, lineEnd);
            && r.touched
            && (r.deleted <==> added == [])
            && (added != [] ==> r.lineStart == MinOf(added) && r.lineEnd == MaxOf(added))
  {
    CountMeaning(changes, 0, 0, true, oldCount, newCount, lineStart, lineEnd);
  }

  /**
   * A fully removed range is reported deleted exactly when its change block adds nothing;
   * otherwise it is mapped onto exactly the lines the block added.
   */
  lemma {:induction false} RemovedRangeMeaning(changes: seq<Change>, oldCount: nat, newCount: nat, lineStart: int, lineEnd: int)
    returns (lo: nat, hi: nat)
    requires EditScript(changes, oldCount, newCount) && 1 <= lineStart <= lineEnd <= oldCount
    requires AllGone(changes, 0, 0, lineStart, lineEnd)
    ensures Block(changes, lo, hi)
    ensures Change(Remove, Some(lineStart), None) in changes[lo..hi]
    ensures var r, added := RemapLineRange(changes, lineStart, lineEnd), AddedLines(changes[lo..hi]);
            && r.touched
            && (r.deleted <==> added == [])
            && (!r.deleted ==> 1 <= r.lineStart && r.lineEnd <= newCount
                               && forall m :: r.lineStart <= m <= r.lineEnd <==> m in added)
  {
    OneBlock(changes, oldCount, newCount, lineStart, lineEnd);
    RemovedRange(changes, oldCount, newCount, lineStart, lineEnd);
    var first, last := RemovalIndex(changes, lineStart), RemovalIndex(changes, lineEnd);
    lo, hi := BlockStart(changes, first), BlockEnd(changes, last) + 1;
    RemovalEntry(changes, 0, 0, true, oldCount, newCount, first);
    assert changes[lo..hi][first - lo] == changes[first];
    var n := BlockRow(changes, oldCount, newCount, lo, hi);
    assert AddedLines(changes[lo..hi]) == BlockAdds(changes, lineStart, lineEnd);
  }

  lemma {:induction false} BlockRow(changes: seq<Change>, oldCount: nat, newCount: nat, lo: nat, hi: nat) returns (n: nat)
    requires EditScript(changes, oldCount, newCount) && Block(changes, lo, hi)
    ensures var added := AddedLines(changes[lo..hi]);
            added != [] ==>
              && MinOf(added) == n + 1 && MaxOf(added) == n + |added| <= newCount
              && forall m :: n + 1 <= m <= n + |added| <==> m in added
  {
    var p, g;
    p, n, g := ScriptAt(changes, 0, 0, true, oldCount, newCount, lo);
    assert changes[lo..][..hi - lo] == changes[lo..hi];
    AddsInARow(changes[lo..], p, n, g, oldCount, newCount, hi - lo);
    if AddedLines(changes[lo..hi]) != [] {
      RowEnds(AddedLines(changes[lo..hi]), n + 1);
    }
  }

  /** A range is reported deleted exactly when all of it is gone and its change block adds nothing. */
  lemma DeletedMeaning(changes: seq<Change>, oldCount: nat, newCount: nat, lineStart: int, lineEnd: int)
    requires EditScript(changes, oldCount, newCount) && 1 <= lineStart <= lineEnd <= oldCount
    ensures RemapLineRange(changes, lineStart, lineEnd).deleted
            <==> AllGone(changes, 0, 0, lineStart, lineEnd) && BlockAdds(changes, lineStart, lineEnd) == []
  {
    CountMeaning(changes, 0, 0, true, oldCount, newCount, lineStart, lineEnd);
  }
}
