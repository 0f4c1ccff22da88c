/**
 * What the comparison of saved and found context comes to, without its loops and helpers
 * (live/src/lib/comment-anchor.ts, "Candidate search").
 */
module ContextRules {
  import opened Wrappers
  import opened Text
  import opened Normalization
  import opened Candidates
  import opened Context

  /** After `a` of the wanted and `b` of the found characters nearest the quote, the next `k` are the same. */
  predicate Fits(want: string, got: string, side: Side, a: nat, b: nat, k: nat) {
    && a + k <= |want| && b + k <= |got|
    && match side
       case Prefix => want[|want| - a - k..|want| - a] == got[|got| - b - k..|got| - b]
       case Suffix => want[a..a + k] == got[b..b + k]
  }

  lemma {:induction false} CommonSuffixHas(x: string, y: string, k: nat)
    requires k <= |x| && k <= |y| && x[|x| - k..] == y[|y| - k..]
    ensures k <= CommonSuffixLength(x, y)
    decreases k
  {
    if k > 0 {
      LastOfTail(x, k);
      LastOfTail(y, k);
      CommonSuffixHas(x[..|x| - 1], y[..|y| - 1], k - 1);
    }
  }

  lemma {:induction false} CommonPrefixHas(x: string, y: string, k: nat)
    requires k <= |x| && k <= |y| && x[..k] == y[..k]
    ensures k <= CommonPrefixLength(x, y)
    decreases k
  {
    if k > 0 {
      assert x[0] == x[..k][0] && y[0] == y[..k][0];
      assert x[1..][..k - 1] == x[..k][1..] && y[1..][..k - 1] == y[..k][1..];
      CommonPrefixHas(x[1..], y[1..], k - 1);
    }
  }

  lemma TailAndLast(x: string, n: nat)
    requires n < |x|
    ensures x[|x| - 1 - n..] == x[..|x| - 1][|x| - 1 - n..] + [x[|x| - 1]]
  {
  }

  lemma {:induction false} CommonSuffixIs(x: string, y: string)
    ensures var n := CommonSuffixLength(x, y); x[|x| - n..] == y[|y| - n..]
  {
    if x != "" && y != "" && x[|x| - 1] == y[|y| - 1] {
      var p, q := x[..|x| - 1], y[..|y| - 1];
      CommonSuffixIs(p, q);
      TailAndLast(x, CommonSuffixLength(p, q));
      TailAndLast(y, CommonSuffixLength(p, q));
    }
  }

  lemma {:induction false} CommonPrefixIs(x: string, y: string)
    ensures var n := CommonPrefixLength(x, y); x[..n] == y[..n]
  {
    if x != "" && y != "" && x[0] == y[0] {
      CommonPrefixIs(x[1..], y[1..]);
      var n := CommonPrefixLength(x[1..], y[1..]);
      assert x[..1 + n] == [x[0]] + x[1..][..n] && y[..1 + n] == [y[0]] + y[1..][..n];
    }
  }

  /** How many characters `slice` really skips: past the end it counts from the other side. */
  function Skipped(s: string, side: Side, a: nat): (r: nat)
    requires a <= 3
    ensures r <= |s| && r <= 3 && (a <= |s| ==> r == a)
  {
    if a <= |s| then a else if side.Prefix? then Min(|s|, a - |s|) else |s|
  }

  lemma SliceSkips(s: string, side: Side, a: nat)
    requires a <= 3
    ensures side.Prefix? ==> Slice(s, 0, |s| - a) == s[..|s| - Skipped(s, side, a)]
    ensures side.Suffix? ==> Slice(s, a, |s|) == s[Skipped(s, side, a)..]
  {
  }

  lemma PrefixFitCounts(want: string, got: string, a: nat, b: nat, k: nat, x: string, y: string)
    requires a <= |want| && b <= |got| && x == want[..|want| - a] && y == got[..|got| - b] && Fits(want, got, Prefix, a, b, k)
    ensures k <= CommonSuffixLength(x, y)
  {
    assert x[|x| - k..] == want[|want| - a - k..|want| - a] && y[|y| - k..] == got[|got| - b - k..|got| - b];
    CommonSuffixHas(x, y, k);
  }

  lemma SuffixFitCounts(want: string, got: string, a: nat, b: nat, k: nat, x: string, y: string)
    requires a <= |want| && b <= |got| && x == want[a..] && y == got[b..] && Fits(want, got, Suffix, a, b, k)
    ensures k <= CommonPrefixLength(x, y)
  {
    assert x[..k] == want[a..a + k] && y[..k] == got[b..b + k];
    CommonPrefixHas(x, y, k);
  }

  /** What fits is counted. */
  lemma FitCounts(want: string, got: string, side: Side, a: nat, b: nat, k: nat)
    requires a <= 3 && b <= 3 && Fits(want, got, side, a, b, k)
    ensures k <= SkipMatch(want, got, side, a, b)
  {
    SliceSkips(want, side, a);
    SliceSkips(got, side, b);
    match side
    case Prefix => PrefixFitCounts(want, got, a, b, k, want[..|want| - a], got[..|got| - b]);
    case Suffix => SuffixFitCounts(want, got, a, b, k, want[a..], got[b..]);
  }

  lemma PrefixCountFits(want: string, got: string, p: nat, q: nat, k: nat, x: string, y: string)
    requires p <= |want| && q <= |got| && x == want[..|want| - p] && y == got[..|got| - q] && k == CommonSuffixLength(x, y)
    ensures Fits(want, got, Prefix, p, q, k)
  {
    CommonSuffixIs(x, y);
    assert x[|x| - k..] == want[|want| - p - k..|want| - p] && y[|y| - k..] == got[|got| - q - k..|got| - q];
  }

  lemma SuffixCountFits(want: string, got: string, p: nat, q: nat, k: nat, x: string, y: string)
    requires p <= |want| && q <= |got| && x == want[p..] && y == got[q..] && k == CommonPrefixLength(x, y)
    ensures Fits(want, got, Suffix, p, q, k)
  {
    CommonPrefixIs(x, y);
    assert x[..k] == want[p..p + k] && y[..k] == got[q..q + k];
  }

  /** What is counted fits. */
  lemma CountFits(want: string, got: string, side: Side, a: nat, b: nat)
    requires a <= 3 && b <= 3
    ensures Fits(want, got, side, Skipped(want, side, a), Skipped(got, side, b), SkipMatch(want, got, side, a, b))
  {
    var p, q, k := Skipped(want, side, a), Skipped(got, side, b), SkipMatch(want, got, side, a, b);
    SliceSkips(want, side, a);
    SliceSkips(got, side, b);
    match side
    case Prefix => PrefixCountFits(want, got, p, q, k, want[..|want| - p], got[..|got| - q]);
    case Suffix => SuffixCountFits(want, got, p, q, k, want[p..], got[q..]);
  }

  /** The match of one side is the longest stretch that fits when up to three characters are skipped on either side. */
  lemma SideMatchMeaning(want: string, got: string, side: Side, n: nat) returns (a: nat, b: nat)
    requires n == SideMatch(want, got, side)
    ensures a <= 3 && b <= 3 && Fits(want, got, side, a, b, n)
    ensures forall x, y, k: nat | 0 <= x <= 3 && 0 <= y <= 3 && Fits(want, got, side, x, y, k) :: k <= n
  {
    var p, q :| 0 <= p <= 3 && 0 <= q <= 3 && SkipMatch(want, got, side, p, q) == n;
    CountFits(want, got, side, p, q);
    a, b := Skipped(want, side, p), Skipped(got, side, q);
    forall x, y, k: nat | 0 <= x <= 3 && 0 <= y <= 3 && Fits(want, got, side, x, y, k) ensures k <= n {
      FitCounts(want, got, side, x, y, k);
    }
  }

  /** The context next to a candidate that counts: three times as much text as was saved, as far as there is so much. */
  function Beside(text: string, c: Candidate, quote: Quote, side: Side): string
    requires InText(text, c)
  {
    match side
    case Prefix => text[Max(0, c.start - 3 * |quote.prefix|)..c.start]
    case Suffix => text[c.end..Min(|text|, c.end + 3 * |quote.suffix|)]
  }

  /** Half of the saved characters, rounded up, but at least eight of them, or all if there are fewer. */
  function Enough(n: nat): nat {
    if n <= 8 then n else if n <= 16 then 8 else n / 2 + n % 2
  }

  lemma KeyOfNothing(abc: Alphabet)
    ensures ContextKey(abc, "") == ""
  {
  }

  lemma BesideIs(text: string, c: Candidate, quote: Quote, side: Side)
    requires InText(text, c)
    ensures Window(text, c, quote, side) == Beside(text, c, quote, side)
  {
  }

  /**
   * A side disagrees if at least three letters or digits of context were saved there and nowhere, with up to three
   * skipped on either side, enough of them fit what is next to the candidate.
   */
  lemma DisagreementRule(abc: Alphabet, text: string, c: Candidate, quote: Quote, side: Side, want: string, got: string)
    requires InText(text, c)
    requires want == ContextKey(abc, if side.Prefix? then quote.prefix else quote.suffix)
    requires got == ContextKey(abc, Beside(text, c, quote, side))
    ensures SideDisagrees(abc, text, c, quote, side)
            <==> |want| >= 3 && forall a, b, k: nat | 0 <= a <= 3 && 0 <= b <= 3 && Fits(want, got, side, a, b, k) :: k < Enough(|want|)
  {
    var n := SideMatch(want, got, side);
    DisagreesBy(abc, text, c, quote, side, want, got);
    var a, b := SideMatchMeaning(want, got, side, n);
    LessThanEnough(want, got, side, a, b, n, Enough(|want|));
  }

  lemma DisagreesBy(abc: Alphabet, text: string, c: Candidate, quote: Quote, side: Side, want: string, got: string)
    requires InText(text, c)
    requires want == ContextKey(abc, if side.Prefix? then quote.prefix else quote.suffix)
    requires got == ContextKey(abc, Beside(text, c, quote, side))
    ensures SideDisagrees(abc, text, c, quote, side) <==> |want| >= 3 && SideMatch(want, got, side) < Enough(|want|)
  {
    KeyOfNothing(abc);
    BesideIs(text, c, quote, side);
  }

  lemma LessThanEnough(want: string, got: string, side: Side, a: nat, b: nat, n: nat, enough: nat)
    requires a <= 3 && b <= 3 && Fits(want, got, side, a, b, n)
    requires forall x, y, k: nat | 0 <= x <= 3 && 0 <= y <= 3 && Fits(want, got, side, x, y, k) :: k <= n
    ensures n < enough <==> forall x, y, k: nat | 0 <= x <= 3 && 0 <= y <= 3 && Fits(want, got, side, x, y, k) :: k < enough
  {
  }

  /** The score of a candidate adds up what fits best on its two sides. */
  lemma ScoreRule(abc: Alphabet, text: string, c: Candidate, quote: Quote, before: string, after: string)
    requires InText(text, c)
    requires before == ContextKey(abc, Beside(text, c, quote, Prefix)) && after == ContextKey(abc, Beside(text, c, quote, Suffix))
    ensures Score(abc, text, c, quote)
            == SideMatch(ContextKey(abc, quote.prefix), before, Prefix) + SideMatch(ContextKey(abc, quote.suffix), after, Suffix)
  {
    KeyOfNothing(abc);
    BesideIs(text, c, quote, Prefix);
    BesideIs(text, c, quote, Suffix);
    assert SideMatch("", before, Prefix) == 0 && SideMatch("", after, Suffix) == 0;
  }

  // --- Keys ---------------------------------------------------------------------------------

  /** A text with links in it: plain characters, and targets that a key leaves out. */
  datatype Piece = Plain(c: char) | Target(body: string, closed: bool)

  function PrintPiece(p: Piece): string {
    match p case Plain(c) => [c] case Target(body, closed) => "](" + (body + if closed then ")" else "")
  }

  function PrintPieces(pieces: seq<Piece>): string {
    if pieces == [] then "" else PrintPiece(pieces[0]) + PrintPieces(pieces[1..])
  }

  /** What may come before `rest`: a plain character does not start a target, and a target ends at its parenthesis or before a blank. */
  predicate PieceOk(p: Piece, rest: string) {
    match p
    case Plain(c) => !(c == ']' && rest != "" && rest[0] == '(')
    case Target(body, closed) => (forall x | x in body :: x != ')' && !IsSpace(x)) && (!closed && rest != "" ==> IsSpace(rest[0]))
  }

  predicate PiecesOk(pieces: seq<Piece>) {
    pieces != [] ==> PieceOk(pieces[0], PrintPieces(pieces[1..])) && PiecesOk(pieces[1..])
  }

  function PlainOf(pieces: seq<Piece>): string {
    if pieces == [] then "" else (if pieces[0].Plain? then [pieces[0].c] else "") + PlainOf(pieces[1..])
  }

  lemma {:induction false} TargetEnds(body: string, closed: bool, rest: string)
    requires (forall x | x in body :: x != ')' && !IsSpace(x)) && (!closed && rest != "" ==> IsSpace(rest[0]))
    ensures AfterTarget(body + ((if closed then ")" else "") + rest)) == rest
  {
    var end := (if closed then ")" else "") + rest;
    if body == "" {
      assert body + end == end;
      assert closed ==> end[1..] == rest;
      if !closed {
        assert end == rest;
        assert rest != "" && rest[0] == ')' ==> !IsSpace(')');
      }
    } else {
      assert body[0] in body && (body + end)[0] == body[0];
      assert (body + end)[1..] == body[1..] + end;
      assert forall x | x in body[1..] :: x in body;
      TargetEnds(body[1..], closed, rest);
    }
  }

  lemma TargetGoes(body: string, closed: bool, rest: string)
    requires PieceOk(Target(body, closed), rest)
    ensures RemoveTargets(PrintPiece(Target(body, closed)) + rest) == RemoveTargets(rest)
  {
    var end := if closed then ")" else "";
    var s := "](" + (body + end) + rest;
    Regroup(body, end, rest);
    assert s[2..] == (body + end) + rest;
    TargetEnds(body, closed, rest);
  }

  /** The targets of all links are left out, and nothing else. */
  lemma {:induction false} TargetsLeftOut(pieces: seq<Piece>)
    requires PiecesOk(pieces)
    ensures RemoveTargets(PrintPieces(pieces)) == PlainOf(pieces)
    decreases |pieces|
  {
    if pieces != [] {
      var rest := PrintPieces(pieces[1..]);
      TargetsLeftOut(pieces[1..]);
      if pieces[0].Target? {
        TargetGoes(pieces[0].body, pieces[0].closed, rest);
      } else {
        assert ([pieces[0].c] + rest)[1..] == rest;
      }
    }
  }
}
