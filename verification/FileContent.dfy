/**
 * Cached file texts that are reused only while they are the file's current bytes
 * (live/src/lib/file-content-cache.ts).
 */
module FileContent {
  import opened Wrappers
  import opened Text
  import opened Sorting
  import TextSpaces

  // --- ETags -------------------------------------------------------------------------

  predicate IsLineTerminator(c: char) {
    c == '\n' || c == '\r' || c == '\U{2028}' || c == '\U{2029}'
  }

  /** One pair of quotes around a single line is taken off. */
  function Unquote(s: string): string {
    if |s| >= 2 && s[0] == '"' && s[|s| - 1] == '"' && forall i | 1 <= i < |s| - 1 :: !IsLineTerminator(s[i])
    then s[1..|s| - 1] else s
  }

  /** The comparable form of an ETag; `None` for one that cannot vouch for the bytes. */
  function NormalizeEtag(etag: Option<string>): Option<string> {
    if etag.None? then None
    else
      var value := Trim(etag.value);
      if value == "" || "W/" <= value then None
      else
        var bare := Unquote(value);
        if bare == "" then None else Some("e:" + bare)
  }

  /** Quotes are not part of the identity. */
  lemma QuotesDoNotMatter(bare: string)
    requires bare != "" && !IsSpace(bare[0]) && !IsSpace(bare[|bare| - 1]) && bare[0] != '"'
    requires !("W/" <= bare) && forall i | 0 <= i < |bare| :: !IsLineTerminator(bare[i])
    ensures NormalizeEtag(Some("\"" + bare + "\"")) == NormalizeEtag(Some(bare)) == Some("e:" + bare)
  {
    var quoted := "\"" + bare + "\"";
    TrimNothing(bare);
    TrimNothing(quoted);
    assert quoted[1..|quoted| - 1] == bare;
    assert forall i | 1 <= i < |quoted| - 1 :: quoted[i] == bare[i - 1];
  }

  lemma TrimNothing(s: string)
    requires s != "" && !IsSpace(s[0]) && !IsSpace(s[|s| - 1])
    ensures Trim(s) == s
  {
  }

  /** Weak, blank and absent ETags never vouch for anything. */
  lemma WeakEtagsDoNotVouch(rest: string)
    ensures NormalizeEtag(None) == None && NormalizeEtag(Some("")) == None
    ensures "W/" <= Trim(rest) ==> NormalizeEtag(Some(rest)) == None
    ensures AllBlank(rest) ==> NormalizeEtag(Some(rest)) == None
  {
    TrimEmpty(rest);
    TrimEmpty("");
  }

  predicate SingleLine(s: string) {
    forall i | 0 <= i < |s| :: !IsLineTerminator(s[i])
  }

  predicate InQuotes(s: string) {
    |s| >= 2 && s[0] == '"' == s[|s| - 1] && SingleLine(s[1..|s| - 1])
  }

  /**
   * Which identity an ETag gives: the text between its quotes if it is one line in quotes, and else the whole of it,
   * without blanks at its ends, and none if that is weak or empty.
   */
  lemma ValidatorMeaning(etag: string, bare: string)
    ensures NormalizeEtag(Some(etag)) == Some("e:" + bare) <==>
              && bare != "" && !("W/" <= Trim(etag))
              && ((Trim(etag) == "\"" + bare + "\"" && SingleLine(bare)) || (Trim(etag) == bare && !InQuotes(bare)))
    ensures NormalizeEtag(Some(etag)).Some? ==> "e:" <= NormalizeEtag(Some(etag)).value
  {
    var t := Trim(etag);
    QuotedIs(t, bare);
    UnquoteMeaning(t);
    TaggedApart(Unquote(t), bare);
  }

  lemma UnquoteMeaning(t: string)
    ensures Unquote(t) == if InQuotes(t) then t[1..|t| - 1] else t
  {
    if |t| >= 2 {
      var inner := t[1..|t| - 1];
      assert forall i | 0 <= i < |inner| :: inner[i] == t[i + 1];
      assert forall i | 1 <= i < |t| - 1 :: t[i] == inner[i - 1];
    }
  }

  lemma QuotedIs(t: string, bare: string)
    ensures t == "\"" + bare + "\"" && SingleLine(bare) <==> InQuotes(t) && t[1..|t| - 1] == bare
  {
    var quoted := "\"" + bare + "\"";
    assert quoted[1..|quoted| - 1] == bare;
    if InQuotes(t) && t[1..|t| - 1] == bare {
      assert t == quoted;
    }
  }

  lemma TaggedApart(x: string, y: string)
    ensures "e:" + x == "e:" + y <==> x == y
  {
    assert ("e:" + x)[2..] == x && ("e:" + y)[2..] == y;
  }

  // --- The cached entry -----------------------------------------------------------------

  datatype CachedContent = CachedContent(content: string, totalLines: nat, truncated: bool, validator: Option<string>)

  /** `text.split("\n").length`. */
  function LineTotal(text: string): nat {
    TextSpaces.LineCount(text)
  }

  function Downloaded(text: string, etag: Option<string>): CachedContent {
    CachedContent(text, LineTotal(text), false, NormalizeEtag(etag))
  }

  /** The cached body was read at the same bytes as the stat describes. */
  predicate CanReuse(cached: Option<CachedContent>, statEtag: Option<string>) {
    NormalizeEtag(statEtag).Some? && cached.Some? && cached.value.validator == NormalizeEtag(statEtag)
  }

  function WithSavedText(entry: CachedContent, text: string): CachedContent {
    entry.(content := text, totalLines := LineTotal(text), validator := None)
  }

  // --- Server writes, stats, downloads and saves in any order ---------------------------------

  /** The stored bytes of the file at some time, and the ETag storage reports for them. */
  datatype Version = Version(text: string, etag: Option<string>)

  /** Every version the file has had, and the cached entry. A response may describe any version it was sent at. */
  datatype State = State(past: set<Version>, cache: Option<CachedContent>)

  datatype Step =
    | Write(version: Version)
    | Open(stat: Version, download: Version)   // a load: its stat, and the download if one is needed
    | Save(text: string)
    | Drop                                     // evicted, or garbage collected

  /** A strong ETag names bytes: versions with the same one have the same text. */
  ghost predicate EtagsNameBytes(past: set<Version>) {
    forall v, w | v in past && w in past :: NormalizeEtag(v.etag).Some? && NormalizeEtag(v.etag) == NormalizeEtag(w.etag) ==> v.text == w.text
  }

  ghost predicate Legal(s: State, step: Step) {
    match step
    case Write(version) => EtagsNameBytes(s.past + {version})
    case Open(stat, download) => stat in s.past && download in s.past
    case Save(_) => true
    case Drop => true
  }

  function Apply(s: State, step: Step): State {
    match step
    case Write(version) => s.(past := s.past + {version})
    case Open(stat, download) =>
      if CanReuse(s.cache, stat.etag) then s else s.(cache := Some(Downloaded(download.text, download.etag)))
    case Save(text) => if s.cache.None? then s else s.(cache := Some(WithSavedText(s.cache.value, text)))
    case Drop => s.(cache := None)
  }

  /** A validator names the very bytes the entry holds, and the line count is theirs. */
  ghost predicate Inv(s: State) {
    && EtagsNameBytes(s.past)
    && (s.cache.Some? ==>
          && s.cache.value.totalLines == LineTotal(s.cache.value.content)
          && !s.cache.value.truncated
          && (s.cache.value.validator.Some? ==>
                exists v :: v in s.past && NormalizeEtag(v.etag) == s.cache.value.validator && v.text == s.cache.value.content))
  }

  lemma StepKeeps(s: State, step: Step)
    requires Inv(s) && Legal(s, step)
    ensures Inv(Apply(s, step))
  {
    if step.Write? && s.cache.Some? && s.cache.value.validator.Some? {
      var v :| v in s.past && NormalizeEtag(v.etag) == s.cache.value.validator && v.text == s.cache.value.content;
      assert v in Apply(s, step).past;
    }
  }

  ghost predicate AllLegal(s: State, steps: seq<Step>)
    decreases |steps|
  {
    steps != [] ==> Legal(s, steps[0]) && AllLegal(Apply(s, steps[0]), steps[1..])
  }

  function RunAll(s: State, steps: seq<Step>): State
    decreases |steps|
  {
    if steps == [] then s else RunAll(Apply(s, steps[0]), steps[1..])
  }

  lemma {:induction false} RunKeeps(s: State, steps: seq<Step>)
    requires Inv(s) && AllLegal(s, steps)
    ensures Inv(RunAll(s, steps))
    decreases |steps|
  {
    if steps != [] {
      StepKeeps(s, steps[0]);
      RunKeeps(Apply(s, steps[0]), steps[1..]);
    }
  }

  /**
   * After any run, writes between a stat and its download included, a body that would be reused
   * for a stat is the text of the version the stat described.
   */
  lemma ReusedBodyIsCurrent(steps: seq<Step>, stat: Version)
    requires AllLegal(State({}, None), steps)
    requires stat in RunAll(State({}, None), steps).past
    ensures var s := RunAll(State({}, None), steps);
            CanReuse(s.cache, stat.etag) ==> s.cache.value.content == stat.text
  {
    RunKeeps(State({}, None), steps);
  }

  /** The entry a download gives: its text, the number of its lines, and the validator its response named. */
  function EntryOf(download: Version): CachedContent {
    CachedContent(download.text, 1 + TextSpaces.Newlines(download.text), false, NormalizeEtag(download.etag))
  }

  /**
   * What an open leaves cached, after any run. An entry stamped with the very validator of the stat is kept as it is
   * and nothing is downloaded; in every other case, with no entry, an unknown validator or a different one, it is the
   * download. Either way it is a text that the stat or the download described.
   */
  lemma OpenHandsBack(steps: seq<Step>, stat: Version, download: Version, before: State, after: State)
    requires AllLegal(State({}, None), steps) && before == RunAll(State({}, None), steps)
    requires stat in before.past && download in before.past && after == Apply(before, Open(stat, download))
    ensures after.past == before.past
    ensures var current := NormalizeEtag(stat.etag);
            if current.Some? && before.cache.Some? && before.cache.value.validator == current
            then after.cache == before.cache && after.cache.value.content == stat.text
            else after.cache == Some(EntryOf(download))
    ensures after.cache.value.content in {stat.text, download.text}
    ensures after.cache.value.totalLines == 1 + TextSpaces.Newlines(after.cache.value.content)
  {
    RunKeeps(State({}, None), steps);
  }

  /** A save replaces the text of a cached entry, and the first open after it downloads, whatever the stat says. */
  lemma OpenAfterSave(s: State, text: string, steps: seq<Step>, stat: Version, download: Version, saved: State)
    requires saved == Apply(s, Save(text)) && forall step | step in steps :: !step.Open?
    ensures saved.past == s.past
    ensures saved.cache == if s.cache.None? then None
                           else Some(CachedContent(text, 1 + TextSpaces.Newlines(text), s.cache.value.truncated, None))
    ensures s.cache.Some? ==> Apply(RunAll(saved, steps), Open(stat, download)).cache == Some(EntryOf(download))
  {
    if s.cache.Some? {
      StaysUnvouched(saved, steps);
    }
  }

  /** So does the first open after the entry was evicted. */
  lemma OpenAfterDrop(s: State, steps: seq<Step>, stat: Version, download: Version)
    requires forall step | step in steps :: !step.Open?
    ensures Apply(RunAll(Apply(s, Drop), steps), Open(stat, download)).cache == Some(EntryOf(download))
  {
    StaysUnvouched(Apply(s, Drop), steps);
  }

  lemma {:induction false} StaysUnvouched(s: State, steps: seq<Step>)
    requires s.cache.Some? ==> s.cache.value.validator.None?
    requires forall step | step in steps :: !step.Open?
    ensures RunAll(s, steps).cache.Some? ==> RunAll(s, steps).cache.value.validator.None?
    decreases |steps|
  {
    if steps != [] {
      assert steps[0] in steps;
      StaysUnvouched(Apply(s, steps[0]), steps[1..]);
    }
  }

  predicate Downloads(s: State, step: Step) {
    step.Open? && !CanReuse(s.cache, step.stat.etag)
  }

  ghost predicate NoDownload(s: State, steps: seq<Step>)
    decreases |steps|
  {
    steps != [] ==> !Downloads(s, steps[0]) && NoDownload(Apply(s, steps[0]), steps[1..])
  }

  /** A saved text is not reused, whatever a stat says, until a download has replaced it. */
  lemma SavedTextNotReused(s: State, text: string, steps: seq<Step>, etag: Option<string>)
    requires s.cache.Some? && NoDownload(Apply(s, Save(text)), steps)
    ensures Apply(s, Save(text)).cache.value.content == text
    ensures !CanReuse(RunAll(Apply(s, Save(text)), steps).cache, etag)
  {
    NeverReusable(Apply(s, Save(text)), steps, etag);
  }

  lemma {:induction false} NeverReusable(s: State, steps: seq<Step>, etag: Option<string>)
    requires s.cache.Some? ==> s.cache.value.validator.None?
    requires NoDownload(s, steps)
    ensures !CanReuse(RunAll(s, steps).cache, etag)
    decreases |steps|
  {
    if steps != [] {
      NeverReusable(Apply(s, steps[0]), steps[1..], etag);
    }
  }

  // --- The budget ---------------------------------------------------------------------------------

  const MAX_TOTAL_RETAINED_CHARS := 10_000_000

  /** A cached query for a file's text; `chars` is absent while it has no data. */
  datatype Query = Query(key: string, chars: Option<nat>, observers: nat, updatedAt: int)

  /** Counted against the budget: has data, and is not the entry about to be stored. */
  predicate Counted(incoming: string, q: Query) {
    q.key != incoming && q.chars.Some?
  }

  predicate Closed(incoming: string, q: Query) {
    Counted(incoming, q) && q.observers == 0
  }

  predicate OlderOrSame(a: Query, b: Query) {
    a.updatedAt <= b.updatedAt
  }

  function Chars(incoming: string, queries: seq<Query>): nat {
    if queries == [] then 0
    else (if Counted(incoming, queries[0]) then queries[0].chars.value else 0) + Chars(incoming, queries[1..])
  }

  /** How many of the closed files, oldest first, have to go. */
  function Excess(closed: seq<Query>, total: int): (n: nat)
    ensures n <= |closed|
  {
    if closed == [] || total <= MAX_TOTAL_RETAINED_CHARS || closed[0].chars.None? then 0
    else 1 + Excess(closed[1..], total - closed[0].chars.value)
  }

  function IsClosed(incoming: string): Query -> bool {
    (q: Query) => Closed(incoming, q)
  }

  function ClosedOldestFirst(queries: seq<Query>, incoming: string): seq<Query> {
    Sort(Filter(queries, IsClosed(incoming)), OlderOrSame)
  }

  function Victims(queries: seq<Query>, incoming: string, incomingChars: nat): seq<Query> {
    var closed := ClosedOldestFirst(queries, incoming);
    closed[..Excess(closed, incomingChars + Chars(incoming, queries))]
  }

  ghost predicate DistinctKeys(queries: seq<Query>) {
    forall i, j | 0 <= i < j < |queries| :: queries[i].key != queries[j].key
  }

  /** What is left when some queries are gone. */
  function Without(queries: seq<Query>, gone: seq<Query>): seq<Query> {
    Filter(queries, (q: Query) => q !in gone)
  }

  function Except(queries: seq<Query>, v: Query): seq<Query> {
    Filter(queries, (q: Query) => q != v)
  }

  class QueryCache {
    var queries: seq<Query>

    method Remove(q: Query)
      modifies this
      ensures queries == Except(old(queries), q)
    {
      queries := Except(queries, q);
    }

    method EvictToBudget(incoming: string, incomingChars: nat)
      modifies this
      ensures queries == Without(old(queries), Victims(old(queries), incoming, incomingChars))
    {
      var total, closed := Tally(incoming, incomingChars);
      closed := Sort(closed, OlderOrSame);
      VictimsAre(queries, incoming, incomingChars, closed, total);
      RemoveOldest(closed, total);
    }

    /** The loop that removes closed files until the rest fits. */
    method RemoveOldest(closed: seq<Query>, total: int)
      requires forall q | q in closed :: q.chars.Some?
      modifies this
      ensures queries == Without(old(queries), closed[..Excess(closed, total)])
    {
      ghost var all, n := queries, Excess(closed, total);
      var k, left := 0, total;
      WithoutNone(all, closed[..0]);
      while k < |closed| && left > MAX_TOTAL_RETAINED_CHARS
        invariant k <= |closed| && n == k + Excess(closed[k..], left)
        invariant queries == Without(all, closed[..k])
      {
        assert closed[k..][0] == closed[k] && closed[k..][1..] == closed[k + 1..];
        assert closed[k] in closed;
        Remove(closed[k]);
        left := left - closed[k].chars.value;
        FilterTwice(all, closed, k);
        k := k + 1;
      }
    }

    /** The loop that adds up the characters and collects the closed files. */
    method Tally(incoming: string, incomingChars: nat) returns (total: int, closed: seq<Query>)
      ensures total == incomingChars + Chars(incoming, queries)
      ensures closed == Filter(queries, IsClosed(incoming))
    {
      total, closed := incomingChars, [];
      for i := 0 to |queries|
        invariant total + Chars(incoming, queries[i..]) == incomingChars + Chars(incoming, queries)
        invariant closed + Filter(queries[i..], IsClosed(incoming)) == Filter(queries, IsClosed(incoming))
      {
        var q := queries[i];
        TallyTurn(incoming, queries, i, closed);
        if q.key == incoming || q.chars.None? {
          continue;
        }
        total := total + q.chars.value;
        if q.observers == 0 {
          closed := closed + [q];
        }
      }
    }
  }

  /** What one more query adds to the characters and to the closed files. */
  lemma TallyTurn(incoming: string, queries: seq<Query>, i: nat, closed: seq<Query>)
    requires i < |queries|
    ensures var q, rest := queries[i], queries[i + 1..];
            && Chars(incoming, queries[i..]) == (if Counted(incoming, q) then q.chars.value else 0) + Chars(incoming, rest)
            && closed + Filter(queries[i..], IsClosed(incoming))
               == (if Closed(incoming, q) then closed + [q] else closed) + Filter(rest, IsClosed(incoming))
  {
    assert queries[i..][0] == queries[i] && queries[i..][1..] == queries[i + 1..];
    Regroup(closed, [queries[i]], Filter(queries[i + 1..], IsClosed(incoming)));
  }

  lemma VictimsAre(queries: seq<Query>, incoming: string, incomingChars: nat, closed: seq<Query>, total: int)
    requires closed == ClosedOldestFirst(queries, incoming) && total == incomingChars + Chars(incoming, queries)
    ensures Victims(queries, incoming, incomingChars) == closed[..Excess(closed, total)]
    ensures forall q | q in closed :: q.chars.Some?
  {
    ClosedHaveChars(queries, incoming);
  }

  lemma WithoutNone(queries: seq<Query>, none: seq<Query>)
    requires none == []
    ensures Without(queries, none) == queries
  {
    FilterAll(queries, (q: Query) => q !in none);
  }

  lemma {:induction false} FilterTwice(all: seq<Query>, closed: seq<Query>, k: nat)
    requires k < |closed|
    ensures Except(Without(all, closed[..k]), closed[k]) == Without(all, closed[..k + 1])
  {
    if all != [] {
      FilterTwice(all[1..], closed, k);
      assert closed[..k + 1] == closed[..k] + [closed[k]];
    }
  }

  lemma ClosedHaveChars(queries: seq<Query>, incoming: string)
    ensures forall q | q in ClosedOldestFirst(queries, incoming) :: q.chars.Some?
  {
    ClosedFacts(queries, incoming);
  }

  lemma ClosedFacts(queries: seq<Query>, incoming: string)
    ensures forall q :: q in ClosedOldestFirst(queries, incoming) <==> q in queries && Closed(incoming, q)
    ensures Sorted(ClosedOldestFirst(queries, incoming), OlderOrSame)
  {
    var closed := Filter(queries, IsClosed(incoming));
    SortSorts(closed, OlderOrSame);
    forall q ensures q in ClosedOldestFirst(queries, incoming) <==> q in closed {
      SameElements(closed, Sort(closed, OlderOrSame), q);
    }
  }

  lemma {:induction false} FilterDistinctKeys(queries: seq<Query>, keep: Query -> bool)
    requires DistinctKeys(queries)
    ensures DistinctKeys(Filter(queries, keep))
  {
    if queries != [] {
      FilterDistinctKeys(queries[1..], keep);
      forall k | 0 <= k < |Filter(queries[1..], keep)| ensures Filter(queries[1..], keep)[k].key != queries[0].key {
        assert Filter(queries[1..], keep)[k] in queries[1..];
      }
    }
  }

  lemma {:induction false} CharsWithoutOne(incoming: string, queries: seq<Query>, v: Query)
    requires DistinctKeys(queries) && v in queries && Counted(incoming, v)
    ensures Chars(incoming, Except(queries, v)) == Chars(incoming, queries) - v.chars.value
  {
    if queries[0] == v {
      FilterAll(queries[1..], (q: Query) => q != v);
    } else {
      CharsWithoutOne(incoming, queries[1..], v);
    }
  }

  /** The total after the first `k` of the closed files have gone. */
  function TotalAfter(closed: seq<Query>, total: int, k: nat): int
    requires k <= |closed|
  {
    if k == 0 then total
    else TotalAfter(closed, total, k - 1) - closed[k - 1].chars.GetOr(0)
  }

  /** Different queries that all count. */
  ghost predicate Removable(incoming: string, queries: seq<Query>, closed: seq<Query>) {
    && (forall q | q in closed :: q in queries && Counted(incoming, q))
    && (forall i, j | 0 <= i < j < |closed| :: closed[i] != closed[j])
  }

  lemma {:induction false} CharsWithout(incoming: string, queries: seq<Query>, closed: seq<Query>, k: nat)
    requires DistinctKeys(queries) && k <= |closed| && Removable(incoming, queries, closed)
    ensures Chars(incoming, Without(queries, closed[..k])) == TotalAfter(closed, Chars(incoming, queries), k)
  {
    if k == 0 {
      WithoutNone(queries, closed[..0]);
    } else {
      CharsWithout(incoming, queries, closed, k - 1);
      StillThere(incoming, queries, closed, k - 1);
      CharsWithoutNext(incoming, queries, closed, k - 1);
    }
  }

  lemma CharsWithoutNext(incoming: string, queries: seq<Query>, closed: seq<Query>, k: nat)
    requires DistinctKeys(queries) && k < |closed|
    requires closed[k] in Without(queries, closed[..k]) && Counted(incoming, closed[k])
    ensures Chars(incoming, Without(queries, closed[..k + 1]))
            == Chars(incoming, Without(queries, closed[..k])) - closed[k].chars.value
  {
    WithoutDistinct(queries, closed[..k]);
    CharsWithoutOne(incoming, Without(queries, closed[..k]), closed[k]);
    FilterTwice(queries, closed, k);
  }

  lemma WithoutDistinct(queries: seq<Query>, gone: seq<Query>)
    requires DistinctKeys(queries)
    ensures DistinctKeys(Without(queries, gone))
  {
    FilterDistinctKeys(queries, (q: Query) => q !in gone);
  }

  lemma StillThere(incoming: string, queries: seq<Query>, closed: seq<Query>, k: nat)
    requires k < |closed| && Removable(incoming, queries, closed)
    ensures closed[k] in Without(queries, closed[..k]) && Counted(incoming, closed[k])
  {
    assert closed[k] in closed;
  }

  lemma {:induction false} ExcessMeaning(closed: seq<Query>, total: int)
    requires forall q | q in closed :: q.chars.Some?
    ensures var n := Excess(closed, total);
            && (TotalAfter(closed, total, n) <= MAX_TOTAL_RETAINED_CHARS || n == |closed|)
            && (forall k | 0 <= k < n :: TotalAfter(closed, total, k) > MAX_TOTAL_RETAINED_CHARS)
  {
    if closed != [] && total > MAX_TOTAL_RETAINED_CHARS {
      var rest, less := closed[1..], total - closed[0].chars.value;
      ExcessMeaning(rest, less);
      forall k | 0 <= k <= |rest| ensures TotalAfter(closed, total, k + 1) == TotalAfter(rest, less, k) {
        TotalShift(closed, total, k);
      }
      forall k | 0 <= k < Excess(closed, total) ensures TotalAfter(closed, total, k) > MAX_TOTAL_RETAINED_CHARS {
        if k > 0 {
          TotalShift(closed, total, k - 1);
        }
      }
    }
  }

  lemma {:induction false} TotalShift(closed: seq<Query>, total: int, k: nat)
    requires closed != [] && closed[0].chars.Some? && k < |closed|
    ensures TotalAfter(closed, total, k + 1) == TotalAfter(closed[1..], total - closed[0].chars.value, k)
  {
    if k > 0 {
      TotalShift(closed, total, k - 1);
    }
  }

  lemma NoRepeats(queries: seq<Query>, incoming: string)
    requires DistinctKeys(queries)
    ensures var closed := ClosedOldestFirst(queries, incoming);
            forall i, j | 0 <= i < j < |closed| :: closed[i] != closed[j]
  {
    var closed, chosen := ClosedOldestFirst(queries, incoming), Filter(queries, IsClosed(incoming));
    FilterDistinctKeys(queries, IsClosed(incoming));
    forall i, j | 0 <= i < j < |closed| ensures closed[i] != closed[j] {
      SameElements(chosen, closed, closed[i]);
      KeyOnce(chosen, closed[i]);
      if closed[i] == closed[j] {
        CountedTwice(closed, i, j);
      }
    }
  }

  lemma {:induction false} KeyOnce(queries: seq<Query>, q: Query)
    requires DistinctKeys(queries) && q in queries
    ensures multiset(queries)[q] == 1
  {
    assert queries == [queries[0]] + queries[1..];
    if q == queries[0] {
      assert q !in queries[1..];
    } else {
      KeyOnce(queries[1..], q);
    }
  }

  /** What one query holds beside the entry about to be stored. */
  function Beside(incoming: string, q: Query): nat {
    if q.key == incoming then 0 else q.chars.GetOr(0)
  }

  function TotalBeside(incoming: string, queries: seq<Query>): nat {
    if queries == [] then 0
    else TotalBeside(incoming, queries[..|queries| - 1]) + Beside(incoming, queries[|queries| - 1])
  }

  lemma {:induction false} CharsConcat(incoming: string, x: seq<Query>, y: seq<Query>)
    ensures Chars(incoming, x + y) == Chars(incoming, x) + Chars(incoming, y)
  {
    if x == [] {
      assert x + y == y;
    } else {
      assert (x + y)[1..] == x[1..] + y;
      CharsConcat(incoming, x[1..], y);
    }
  }

  lemma {:induction false} CharsAreTotal(incoming: string, queries: seq<Query>)
    ensures Chars(incoming, queries) == TotalBeside(incoming, queries)
  {
    if queries != [] {
      var n := |queries| - 1;
      CharsAreTotal(incoming, queries[..n]);
      CharsConcat(incoming, queries[..n], [queries[n]]);
      assert queries == queries[..n] + [queries[n]];
    }
  }

  /** Nobody looks at it, and it is not the entry about to be stored. */
  predicate MayGo(incoming: string, q: Query) {
    q.key != incoming && q.chars.Some? && q.observers == 0
  }

  /**
   * The budget: only closed files go, the least recently loaded first; what is left fits or no
   * closed file is left; and it would not have fitted with one victim fewer.
   */
  lemma BudgetLaw(queries: seq<Query>, incoming: string, incomingChars: nat, victims: seq<Query>, left: seq<Query>)
    requires DistinctKeys(queries) && victims == Victims(queries, incoming, incomingChars) && left == Without(queries, victims)
    ensures forall q :: q in left <==> q in queries && q !in victims
    ensures forall v | v in victims :: v in queries && MayGo(incoming, v)
    ensures forall i, j | 0 <= i < j < |victims| :: victims[i].updatedAt <= victims[j].updatedAt
    ensures forall v, q | v in victims && q in left && MayGo(incoming, q) :: v.updatedAt <= q.updatedAt
    ensures incomingChars + TotalBeside(incoming, left) <= 10_000_000 || forall q | q in left :: !MayGo(incoming, q)
    ensures victims != [] ==>
              incomingChars + TotalBeside(incoming, left) + victims[|victims| - 1].chars.GetOr(0) > 10_000_000
  {
    VictimsGo(queries, incoming, incomingChars, victims, left);
    CharsAreTotal(incoming, left);
  }

  lemma VictimsGo(queries: seq<Query>, incoming: string, incomingChars: nat, victims: seq<Query>, left: seq<Query>)
    requires DistinctKeys(queries) && victims == Victims(queries, incoming, incomingChars) && left == Without(queries, victims)
    ensures forall q :: q in left <==> q in queries && q !in victims
    ensures forall v | v in victims :: v in queries && Closed(incoming, v)
    ensures forall i, j | 0 <= i < j < |victims| :: victims[i].updatedAt <= victims[j].updatedAt
    ensures forall v, q | v in victims && q in left && Closed(incoming, q) :: v.updatedAt <= q.updatedAt
    ensures incomingChars + Chars(incoming, left) <= MAX_TOTAL_RETAINED_CHARS || forall q | q in left :: !Closed(incoming, q)
    ensures victims != [] ==>
              incomingChars + Chars(incoming, left) + victims[|victims| - 1].chars.GetOr(0) > MAX_TOTAL_RETAINED_CHARS
  {
    var closed := ClosedOldestFirst(queries, incoming);
    var n := Excess(closed, incomingChars + Chars(incoming, queries));
    VictimsAre(queries, incoming, incomingChars, closed, incomingChars + Chars(incoming, queries));
    OldestGo(queries, incoming, closed, n, victims, left);
    LeftFits(queries, incoming, incomingChars, closed, n, victims, left);
  }

  lemma InPrefix(closed: seq<Query>, n: nat, j: nat)
    requires n <= |closed| && j < |closed|
    ensures j < n ==> closed[j] in closed[..n]
  {
    if j < n {
      assert closed[..n][j] == closed[j];
    }
  }

  lemma OldestGo(queries: seq<Query>, incoming: string, closed: seq<Query>, n: nat, victims: seq<Query>, left: seq<Query>)
    requires closed == ClosedOldestFirst(queries, incoming) && n <= |closed| && victims == closed[..n] && left == Without(queries, victims)
    ensures forall v | v in victims :: v in queries && Closed(incoming, v)
    ensures forall v, q | v in victims && q in left && Closed(incoming, q) :: v.updatedAt <= q.updatedAt
    ensures n == |closed| ==> forall q | q in left :: !Closed(incoming, q)
    ensures forall i, j | 0 <= i < j < |victims| :: victims[i].updatedAt <= victims[j].updatedAt
  {
    ClosedFacts(queries, incoming);
    forall v, q | v in victims && q in left && Closed(incoming, q) ensures v.updatedAt <= q.updatedAt {
      var i :| 0 <= i < n && closed[i] == v;
      var j :| 0 <= j < |closed| && closed[j] == q;
      InPrefix(closed, n, j);
    }
    forall v | v in victims ensures v in closed {
    }
    if n == |closed| {
      assert victims == closed;
    }
  }

  lemma LeftFits(queries: seq<Query>, incoming: string, incomingChars: nat, closed: seq<Query>, n: nat, victims: seq<Query>, left: seq<Query>)
    requires DistinctKeys(queries) && closed == ClosedOldestFirst(queries, incoming)
    requires n == Excess(closed, incomingChars + Chars(incoming, queries)) && victims == closed[..n] && left == Without(queries, victims)
    ensures var now := incomingChars + Chars(incoming, left);
            && (now <= MAX_TOTAL_RETAINED_CHARS || n == |closed|)
            && (n > 0 ==> now + victims[n - 1].chars.GetOr(0) > MAX_TOTAL_RETAINED_CHARS)
  {
    var total := incomingChars + Chars(incoming, queries);
    ClosedHaveChars(queries, incoming);
    VictimsTotal(queries, incoming, incomingChars, closed, n, left);
    ExcessFits(closed, total, n, TotalAfter(closed, total, n));
    assert n > 0 ==> victims[n - 1] == closed[n - 1];
  }

  lemma ExcessFits(closed: seq<Query>, total: int, n: nat, now: int)
    requires forall q | q in closed :: q.chars.Some?
    requires n == Excess(closed, total) && now == TotalAfter(closed, total, n)
    ensures now <= MAX_TOTAL_RETAINED_CHARS || n == |closed|
    ensures n > 0 ==> now + closed[n - 1].chars.GetOr(0) > MAX_TOTAL_RETAINED_CHARS
  {
    ExcessMeaning(closed, total);
    if n > 0 {
      LastTotal(closed, total, n);
    }
  }

  lemma LastTotal(closed: seq<Query>, total: int, n: nat)
    requires 0 < n <= |closed|
    ensures TotalAfter(closed, total, n) + closed[n - 1].chars.GetOr(0) == TotalAfter(closed, total, n - 1)
  {
  }

  lemma VictimsTotal(queries: seq<Query>, incoming: string, incomingChars: nat, closed: seq<Query>, n: nat, left: seq<Query>)
    requires DistinctKeys(queries) && closed == ClosedOldestFirst(queries, incoming)
    requires n <= |closed| && left == Without(queries, closed[..n])
    ensures incomingChars + Chars(incoming, left) == TotalAfter(closed, incomingChars + Chars(incoming, queries), n)
  {
    ClosedFacts(queries, incoming);
    NoRepeats(queries, incoming);
    CharsWithout(incoming, queries, closed, n);
    TotalsAdd(closed, Chars(incoming, queries), incomingChars, n);
  }

  lemma {:induction false} TotalsAdd(closed: seq<Query>, a: int, b: int, k: nat)
    requires k <= |closed|
    ensures TotalAfter(closed, b + a, k) == b + TotalAfter(closed, a, k)
  {
    if k > 0 {
      TotalsAdd(closed, a, b, k - 1);
    }
  }
}
