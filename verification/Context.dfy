/**
 * Telling occurrences of a quote apart by the text around them
 * (live/src/lib/comment-anchor.ts, `contextKey` to `pickNearestLine`).
 */
module Context {
  import opened Wrappers
  import opened Text
  import opened Normalization
  import opened Candidates
  import opened Sorting

  /** A stored quote; an absent side is the empty string, which the code treats alike. */
  datatype Quote = Quote(exact: string, prefix: string, suffix: string)

  datatype Side = Prefix | Suffix

  // --- Context keys -----------------------------------------------------------

  /** What follows the target of a link whose "](" was just read. */
  function AfterTarget(s: string): (r: string)
    ensures |r| <= |s|
  {
    if s == "" then ""
    else if s[0] == ')' then s[1..]
    else if IsSpace(s[0]) then s
    else AfterTarget(s[1..])
  }

  /** Link targets removed. */
  function RemoveTargets(s: string): string
    decreases |s|
  {
    if s == "" then ""
    else if |s| >= 2 && s[0] == ']' && s[1] == '(' then RemoveTargets(AfterTarget(s[2..]))
    else [s[0]] + RemoveTargets(s[1..])
  }

  function KeepAlnum(abc: Alphabet, s: string): string {
    if s == "" then ""
    else (if abc.alnum(s[0]) then [s[0]] else "") + KeepAlnum(abc, s[1..])
  }

  /** Letters and digits, lower-cased. */
  function Letters(abc: Alphabet, s: string): string {
    if s == "" then "" else KeepAlnum(abc, abc.lower(s[0])) + Letters(abc, s[1..])
  }

  function ContextKey(abc: Alphabet, s: string): string {
    Letters(abc, RemoveTargets(s))
  }

  // --- Matching outward from the quote ----------------------------------------

  function CommonSuffixLength(a: string, b: string): (n: nat)
    ensures n <= |a| && n <= |b|
  {
    if a != "" && b != "" && a[|a| - 1] == b[|b| - 1]
    then 1 + CommonSuffixLength(a[..|a| - 1], b[..|b| - 1])
    else 0
  }

  function CommonPrefixLength(a: string, b: string): (n: nat)
    ensures n <= |a| && n <= |b|
  {
    if a != "" && b != "" && a[0] == b[0] then 1 + CommonPrefixLength(a[1..], b[1..]) else 0
  }

  lemma LastOfTail(a: string, n: nat)
    requires 0 < n <= |a|
    ensures a[|a| - n..][n - 1] == a[|a| - 1]
    ensures a[..|a| - 1][|a| - n..] == a[|a| - n..][..n - 1]
  {
    SliceOfSlice(a, |a| - n, |a|, 0, n - 1);
  }

  /** The only length with both properties is the one computed, so the counting loop finds it. */
  lemma {:induction false} CommonSuffixUnique(a: string, b: string, n: nat)
    requires n <= |a| && n <= |b| && a[|a| - n..] == b[|b| - n..]
    requires n < |a| && n < |b| ==> a[|a| - 1 - n] != b[|b| - 1 - n]
    ensures CommonSuffixLength(a, b) == n
    decreases n
  {
    if n > 0 {
      LastOfTail(a, n);
      LastOfTail(b, n);
      CommonSuffixUnique(a[..|a| - 1], b[..|b| - 1], n - 1);
    }
  }

  lemma {:induction false} CommonPrefixUnique(a: string, b: string, n: nat)
    requires n <= |a| && n <= |b| && a[..n] == b[..n]
    requires n < |a| && n < |b| ==> a[n] != b[n]
    ensures CommonPrefixLength(a, b) == n
    decreases n
  {
    if n > 0 {
      assert a[0] == a[..n][0] && b[0] == b[..n][0];
      assert a[1..][..n - 1] == a[..n][1..] && b[1..][..n - 1] == b[..n][1..];
      CommonPrefixUnique(a[1..], b[1..], n - 1);
    }
  }

  method CommonSuffixLoop(a: string, b: string) returns (n: nat)
    ensures n == CommonSuffixLength(a, b)
  {
    n := 0;
    while n < |a| && n < |b| && a[|a| - 1 - n] == b[|b| - 1 - n]
      invariant n <= |a| && n <= |b| && a[|a| - n..] == b[|b| - n..]
    {
      assert a[|a| - 1 - n..] == [a[|a| - 1 - n]] + a[|a| - n..];
      assert b[|b| - 1 - n..] == [b[|b| - 1 - n]] + b[|b| - n..];
      n := n + 1;
    }
    CommonSuffixUnique(a, b, n);
  }

  method CommonPrefixLoop(a: string, b: string) returns (n: nat)
    ensures n == CommonPrefixLength(a, b)
  {
    n := 0;
    while n < |a| && n < |b| && a[n] == b[n]
      invariant n <= |a| && n <= |b| && a[..n] == b[..n]
    {
      assert a[..n + 1] == a[..n] + [a[n]] && b[..n + 1] == b[..n] + [b[n]];
      n := n + 1;
    }
    CommonPrefixUnique(a, b, n);
  }

  const CONTEXT_SKIP := 3
  const CONTEXT_MIN := 3

  /** Common characters when `a` of the wanted and `b` of the found ones nearest the quote are skipped. */
  function SkipMatch(want: string, got: string, side: Side, a: nat, b: nat): (n: nat)
    ensures n <= |want|
  {
    match side
    case Prefix => CommonSuffixLength(Slice(want, 0, |want| - a), Slice(got, 0, |got| - b))
    case Suffix => CommonPrefixLength(Slice(want, a, |want|), Slice(got, b, |got|))
  }

  /** The largest of f(a, 0), ..., f(a, n - 1), and 0. */
  function BestInRow(f: (nat, nat) -> nat, a: nat, n: nat): (r: nat)
    ensures forall b | 0 <= b < n :: f(a, b) <= r
    ensures r == 0 || exists b | 0 <= b < n :: f(a, b) == r
  {
    if n == 0 then 0 else Max(BestInRow(f, a, n - 1), f(a, n - 1))
  }

  /** The largest of f over the first `n` rows of skips. */
  function BestOfRows(f: (nat, nat) -> nat, n: nat): (r: nat)
    ensures forall a, b | 0 <= a < n && 0 <= b <= CONTEXT_SKIP :: f(a, b) <= r
    ensures r == 0 || exists a, b | 0 <= a < n && 0 <= b <= CONTEXT_SKIP :: f(a, b) == r
  {
    if n == 0 then 0
    else Max(BestOfRows(f, n - 1), BestInRow(f, n - 1, CONTEXT_SKIP + 1))
  }

  function Skipper(want: string, got: string, side: Side): (nat, nat) -> nat {
    (a: nat, b: nat) => SkipMatch(want, got, side, a, b)
  }

  /** How many of the wanted characters match outward from the quote, allowing up to three stray ones on either side. */
  function SideMatch(want: string, got: string, side: Side): (n: nat)
    ensures n <= |want|
    ensures forall a, b | 0 <= a <= CONTEXT_SKIP && 0 <= b <= CONTEXT_SKIP :: SkipMatch(want, got, side, a, b) <= n
    ensures exists a, b | 0 <= a <= CONTEXT_SKIP && 0 <= b <= CONTEXT_SKIP :: SkipMatch(want, got, side, a, b) == n
  {
    var f := Skipper(want, got, side);
    var n := BestOfRows(f, CONTEXT_SKIP + 1);
    assert forall a, b | 0 <= a <= CONTEXT_SKIP && 0 <= b <= CONTEXT_SKIP :: SkipMatch(want, got, side, a, b) == f(a, b);
    assert SkipMatch(want, got, side, 0, 0) <= n;
    n
  }

  /** The two nested skip loops. */
  method SideMatchLoop(want: string, got: string, side: Side) returns (best: nat)
    ensures best == SideMatch(want, got, side)
  {
    ghost var f := Skipper(want, got, side);
    best := 0;
    for a := 0 to CONTEXT_SKIP + 1
      invariant best == BestOfRows(f, a)
    {
      for b := 0 to CONTEXT_SKIP + 1
        invariant best == Max(BestOfRows(f, a), BestInRow(f, a, b))
      {
        var n := SkipMatchLoop(want, got, side, a, b);
        if n > best {
          best := n;
        }
      }
    }
  }

  method SkipMatchLoop(want: string, got: string, side: Side, a: nat, b: nat) returns (n: nat)
    ensures n == SkipMatch(want, got, side, a, b)
  {
    match side
    case Prefix =>
      n := CommonSuffixLoop(Slice(want, 0, |want| - a), Slice(got, 0, |got| - b));
    case Suffix =>
      n := CommonPrefixLoop(Slice(want, a, |want|), Slice(got, b, |got|));
  }

  /** Text that continues exactly as saved matches in full. */
  lemma FullSideMatch(want: string, got: string, side: Side)
    requires match side case Prefix => |want| <= |got| && got[|got| - |want|..] == want case Suffix => want <= got
    ensures SideMatch(want, got, side) == |want|
  {
    assert Slice(want, 0, |want|) == want && Slice(got, 0, |got|) == got;
    match side
    case Prefix =>
      assert want[0..] == want;
      CommonSuffixUnique(want, got, |want|);
      assert SkipMatch(want, got, side, 0, 0) == |want|;
    case Suffix =>
      CommonPrefixUnique(want, got, |want|);
      assert SkipMatch(want, got, side, 0, 0) == |want|;
  }

  /** Nothing skipped is one of the ways to match. */
  lemma UnskippedMatch(want: string, got: string)
    ensures SideMatch(want, got, Prefix) >= CommonSuffixLength(want, got)
  {
    assert Slice(want, 0, |want|) == want && Slice(got, 0, |got|) == got;
    assert SkipMatch(want, got, Prefix, 0, 0) == CommonSuffixLength(want, got);
  }

  // --- Scores and conflicts ---------------------------------------------------

  function Saved(quote: Quote, side: Side): string {
    match side case Prefix => quote.prefix case Suffix => quote.suffix
  }

  /** The text next to a candidate that its saved context is compared with. */
  function Window(text: string, c: Candidate, quote: Quote, side: Side): string {
    match side
    case Prefix => Slice(text, Max(0, c.start - |quote.prefix| * 3), c.start)
    case Suffix => Slice(text, c.end, c.end + |quote.suffix| * 3)
  }

  function SideScore(abc: Alphabet, text: string, c: Candidate, quote: Quote, side: Side): nat {
    if Saved(quote, side) == "" then 0
    else SideMatch(ContextKey(abc, Saved(quote, side)), ContextKey(abc, Window(text, c, quote, side)), side)
  }

  /** Half of what was saved, or the eight characters nearest the quote. */
  function Needed(n: nat): nat {
    Min(n, Max(8, (n + 1) / 2))
  }

  predicate SideDisagrees(abc: Alphabet, text: string, c: Candidate, quote: Quote, side: Side) {
    var want := ContextKey(abc, Saved(quote, side));
    && Saved(quote, side) != ""
    && |want| >= CONTEXT_MIN
    && SideScore(abc, text, c, quote, side) < Needed(|want|)
  }

  /** How much saved context matches around a candidate. */
  function Score(abc: Alphabet, text: string, c: Candidate, quote: Quote): nat {
    SideScore(abc, text, c, quote, Prefix) + SideScore(abc, text, c, quote, Suffix)
  }

  /** Some saved side disagrees with what is around the candidate. */
  predicate Conflicts(abc: Alphabet, text: string, c: Candidate, quote: Quote) {
    SideDisagrees(abc, text, c, quote, Prefix) || SideDisagrees(abc, text, c, quote, Suffix)
  }

  predicate HasContext(quote: Quote) {
    quote.prefix != "" || quote.suffix != ""
  }

  /** The loop over the two sides. */
  method ContextMatch(abc: Alphabet, text: string, c: Candidate, quote: Quote) returns (score: nat, conflicts: bool)
    ensures score == Score(abc, text, c, quote)
    ensures conflicts == Conflicts(abc, text, c, quote)
  {
    score, conflicts := 0, false;
    var sides := [Prefix, Suffix];
    for i := 0 to 2
      invariant score == (if i > 0 then SideScore(abc, text, c, quote, Prefix) else 0)
                         + (if i > 1 then SideScore(abc, text, c, quote, Suffix) else 0)
      invariant conflicts == ((i > 0 && SideDisagrees(abc, text, c, quote, Prefix))
                              || (i > 1 && SideDisagrees(abc, text, c, quote, Suffix)))
    {
      var side := sides[i];
      var saved := Saved(quote, side);
      if saved == "" {
        continue;
      }
      var want := ContextKey(abc, saved);
      var n := SideMatchLoop(want, ContextKey(abc, Window(text, c, quote, side)), side);
      score := score + n;
      if |want| < CONTEXT_MIN {
        continue;
      }
      if n < Needed(|want|) {
        conflicts := true;
      }
    }
  }

  /** The score of an occurrence whose surroundings are exactly as saved. */
  function FullScore(abc: Alphabet, quote: Quote): nat {
    |ContextKey(abc, quote.prefix)| + |ContextKey(abc, quote.suffix)|
  }

  lemma ScoreAtMostFull(abc: Alphabet, text: string, c: Candidate, quote: Quote)
    ensures Score(abc, text, c, quote) <= FullScore(abc, quote)
  {
  }

  /** A full score means both sides agree. */
  lemma FullScoreAgrees(abc: Alphabet, text: string, c: Candidate, quote: Quote)
    requires Score(abc, text, c, quote) == FullScore(abc, quote)
    ensures !Conflicts(abc, text, c, quote)
  {
  }

  // --- Picking one ------------------------------------------------------------

  /** Order by context score, then strict over loose. */
  predicate Worse(score: Candidate -> nat, c: Candidate, d: Candidate) {
    score(c) < score(d) || (score(c) == score(d) && !c.strict && d.strict)
  }

  /** `c` is listed once, some context speaks for it, and every other candidate is worse. */
  predicate SingledOut(score: Candidate -> nat, cands: seq<Candidate>, c: Candidate) {
    && multiset(cands)[c] == 1
    && score(c) > 0
    && forall d | d in cands && d != c :: Worse(score, d, c)
  }

  function Scorer(abc: Alphabet, text: string, quote: Quote): Candidate -> nat {
    (c: Candidate) => Score(abc, text, c, quote)
  }

  /** The candidate that its score singles out, if there is one. */
  function PickBest(score: Candidate -> nat, cands: seq<Candidate>): (r: Option<Candidate>)
    ensures r.Some? ==> r.value in cands && SingledOut(score, cands, r.value)
    ensures forall c | c in cands && SingledOut(score, cands, c) :: r == Some(c)
  {
    if exists c :: c in cands && SingledOut(score, cands, c)
    then
      var c :| c in cands && SingledOut(score, cands, c);
      Some(c)
    else None
  }

  /** The candidate that the context singles out. */
  function PickByContext(abc: Alphabet, text: string, cands: seq<Candidate>, quote: Quote): Option<Candidate> {
    PickBest(Scorer(abc, text, quote), cands)
  }

  /** The order of the list does not matter. */
  lemma PickIgnoresOrder(score: Candidate -> nat, a: seq<Candidate>, b: seq<Candidate>)
    requires multiset(a) == multiset(b)
    ensures PickBest(score, a) == PickBest(score, b)
  {
    forall c ensures c in a <==> c in b {
      SameElements(a, b, c);
    }
    var p, q := PickBest(score, a), PickBest(score, b);
    if p.Some? {
      assert SingledOut(score, b, p.value);
    }
    if q.Some? {
      assert SingledOut(score, a, q.value);
    }
  }

  /** Two listed candidates share the best rank. */
  predicate Tied(score: Candidate -> nat, cands: seq<Candidate>, c: Candidate) {
    || multiset(cands)[c] >= 2
    || exists d | d in cands && d != c :: !Worse(score, c, d) && !Worse(score, d, c)
  }

  /** What the loop knows about the candidates it has seen. */
  ghost predicate PickSoFar(score: Candidate -> nat, seen: seq<Candidate>, best: Option<Candidate>, bestScore: nat, tie: bool) {
    match best
    case None => bestScore == 0 && !tie && forall d | d in seen :: score(d) == 0
    case Some(b) =>
      && b in seen && bestScore == score(b) > 0
      && (forall d | d in seen :: !Worse(score, b, d))
      && (if tie then Tied(score, seen, b) else SingledOut(score, seen, b))
  }

  /** One pass with a best candidate and a "tied" flag. */
  method PickByContextLoop(abc: Alphabet, text: string, cands: seq<Candidate>, quote: Quote) returns (r: Option<Candidate>)
    ensures r == PickByContext(abc, text, cands, quote)
  {
    if !HasContext(quote) {
      NoContextNoPick(abc, text, cands, quote);
      return None;
    }
    var best, bestScore, tie := PickScan(abc, text, cands, quote);
    PickUpToMeaning(Scorer(abc, text, quote), cands, |cands|);
    assert cands[..|cands|] == cands;
    PickEnd(Scorer(abc, text, quote), cands, best, bestScore, tie);
    r := if tie then None else best;
  }

  /** What the loop carries. */
  datatype Picked = Picked(best: Option<Candidate>, score: nat, tie: bool)

  function PickNext(s: nat, c: Candidate, p: Picked): Picked {
    if Improves(s, c, p.best, p.score) then Picked(Some(c), s, false)
    else if Ties(s, c, p.best, p.score) then p.(tie := true)
    else p
  }

  function PickUpTo(score: Candidate -> nat, cands: seq<Candidate>, n: nat): Picked
    requires n <= |cands|
  {
    if n == 0 then Picked(None, 0, false) else PickNext(score(cands[n - 1]), cands[n - 1], PickUpTo(score, cands, n - 1))
  }

  lemma {:induction false} PickUpToMeaning(score: Candidate -> nat, cands: seq<Candidate>, n: nat)
    requires n <= |cands|
    ensures var p := PickUpTo(score, cands, n); PickSoFar(score, cands[..n], p.best, p.score, p.tie)
  {
    if n > 0 {
      var p := PickUpTo(score, cands, n - 1);
      PickUpToMeaning(score, cands, n - 1);
      PickStep(score, cands[..n - 1], cands[n - 1], p.best, p.score, p.tie);
      TakeNext(cands, n - 1);
    }
  }

  method PickScan(abc: Alphabet, text: string, cands: seq<Candidate>, quote: Quote)
    returns (best: Option<Candidate>, bestScore: nat, tie: bool)
    ensures Picked(best, bestScore, tie) == PickUpTo(Scorer(abc, text, quote), cands, |cands|)
  {
    best, bestScore, tie := None, 0, false;
    for i := 0 to |cands|
      invariant Picked(best, bestScore, tie) == PickUpTo(Scorer(abc, text, quote), cands, i)
    {
      var c := cands[i];
      var s, _ := ContextMatch(abc, text, c, quote);
      if Improves(s, c, best, bestScore) {
        best, bestScore, tie := Some(c), s, false;
      } else if Ties(s, c, best, bestScore) {
        tie := true;
      }
    }
  }

  lemma TakeNext<T>(s: seq<T>, i: nat)
    requires i < |s|
    ensures s[..i + 1] == s[..i] + [s[i]]
  {
  }

  lemma NoContextNoPick(abc: Alphabet, text: string, cands: seq<Candidate>, quote: Quote)
    requires !HasContext(quote)
    ensures PickByContext(abc, text, cands, quote) == None
  {
    forall c | c in cands ensures !SingledOut(Scorer(abc, text, quote), cands, c) {
      assert Scorer(abc, text, quote)(c) == 0;
    }
  }

  predicate Improves(s: nat, c: Candidate, best: Option<Candidate>, bestScore: nat) {
    s > bestScore || (s == bestScore && s > 0 && c.strict && !(best.Some? && best.value.strict))
  }

  predicate Ties(s: nat, c: Candidate, best: Option<Candidate>, bestScore: nat) {
    s == bestScore && s > 0 && best.Some? && c.strict == best.value.strict
  }

  lemma PickStep(score: Candidate -> nat, seen: seq<Candidate>, c: Candidate, best: Option<Candidate>, bestScore: nat, tie: bool)
    requires PickSoFar(score, seen, best, bestScore, tie)
    ensures Improves(score(c), c, best, bestScore) ==> PickSoFar(score, seen + [c], Some(c), score(c), false)
    ensures !Improves(score(c), c, best, bestScore) ==>
              PickSoFar(score, seen + [c], best, bestScore, tie || Ties(score(c), c, best, bestScore))
  {
    var now := seen + [c];
    if Improves(score(c), c, best, bestScore) {
      assert c !in seen;
      assert c !in multiset(seen);
    } else if best.Some? {
      var b := best.value;
      assert b in now && c in now;
      if tie {
        StillTied(score, seen, c, b);
      } else if c == b {
        assert b in multiset(seen);
      }
    }
  }

  lemma StillTied(score: Candidate -> nat, seen: seq<Candidate>, c: Candidate, b: Candidate)
    requires Tied(score, seen, b)
    ensures Tied(score, seen + [c], b)
  {
    if multiset(seen)[b] < 2 {
      var d :| d in seen && d != b && !Worse(score, b, d) && !Worse(score, d, b);
      assert d in seen + [c];
    }
  }

  lemma PickEnd(score: Candidate -> nat, cands: seq<Candidate>, best: Option<Candidate>, bestScore: nat, tie: bool)
    requires PickSoFar(score, cands, best, bestScore, tie)
    ensures PickBest(score, cands) == if tie then None else best
  {
    if best.Some? && tie {
      TiedNotSingled(score, cands, best.value);
    }
  }

  lemma TiedNotSingled(score: Candidate -> nat, cands: seq<Candidate>, c: Candidate)
    requires c in cands && Tied(score, cands, c)
    requires forall d | d in cands :: !Worse(score, c, d)
    ensures PickBest(score, cands) == None
  {
  }

  // --- Nearest line -----------------------------------------------------------

  function Abs(n: int): nat {
    if n < 0 then -n else n
  }

  /** The first of the candidates nearest to `line`, among those whose line is known. */
  function NearestOf(lineOf: int -> Option<int>, cands: seq<Candidate>, line: int): (r: Option<Candidate>)
    ensures r.Some? ==> r.value in cands && lineOf(r.value.start).Some?
    ensures r.Some? ==> forall c | c in cands && lineOf(c.start).Some? ::
                Abs(lineOf(r.value.start).value - line) <= Abs(lineOf(c.start).value - line)
    ensures r.None? ==> forall c | c in cands :: lineOf(c.start).None?
  {
    if cands == [] then None
    else
      var init, c := cands[..|cands| - 1], cands[|cands| - 1];
      assert cands == init + [c];
      var r := NearestOf(lineOf, init, line);
      var l := lineOf(c.start);
      if l.None? then r
      else if r.None? || Abs(l.value - line) < Abs(lineOf(r.value.start).value - line) then Some(c)
      else r
  }

  /** Of equally near ones it is the first. */
  lemma {:induction false} NearestIsFirst(lineOf: int -> Option<int>, cands: seq<Candidate>, line: int) returns (i: nat)
    requires NearestOf(lineOf, cands, line).Some?
    ensures i < |cands| && NearestOf(lineOf, cands, line) == Some(cands[i]) && lineOf(cands[i].start).Some?
    ensures forall j | 0 <= j < i && lineOf(cands[j].start).Some? ::
              Abs(lineOf(cands[j].start).value - line) > Abs(lineOf(cands[i].start).value - line)
    decreases |cands|
  {
    var init, last := cands[..|cands| - 1], cands[|cands| - 1];
    var r, l := NearestOf(lineOf, init, line), lineOf(last.start);
    i := |cands| - 1;
    if l.None? || (r.Some? && Abs(l.value - line) >= Abs(lineOf(r.value.start).value - line)) {
      i := NearestIsFirst(lineOf, init, line);
    } else {
      forall j | 0 <= j < i && lineOf(cands[j].start).Some?
        ensures Abs(lineOf(cands[j].start).value - line) > Abs(lineOf(cands[i].start).value - line)
      {
        assert init[j] == cands[j] && cands[j] in init;
      }
    }
  }

  /** The scan with a best candidate and its distance. */
  method NearestLoop(lineOf: int -> Option<int>, cands: seq<Candidate>, line: int) returns (best: Option<Candidate>)
    ensures best == NearestOf(lineOf, cands, line)
  {
    best := None;
    var bestDist := 0;
    for i := 0 to |cands|
      invariant best == NearestOf(lineOf, cands[..i], line)
      invariant best.Some? ==> bestDist == Abs(lineOf(best.value.start).value - line)
    {
      var l := lineOf(cands[i].start);
      assert cands[..i + 1][..i] == cands[..i];
      if l.None? {
        continue;
      }
      var d := Abs(l.value - line);
      if best.None? || d < bestDist {
        best, bestDist := Some(cands[i]), d;
      }
    }
    assert cands[..|cands|] == cands;
  }
}
