/**
 * How the context saved with a quote compares with the very place it was saved at
 * (live/src/lib/comment-anchor.ts, `contextKey` to `contextMatch`). Link targets are removed
 * before the comparison, and a context can begin or end inside one.
 */
module OwnContext {
  import opened Wrappers
  import opened Text
  import opened Normalization
  import opened Candidates
  import opened Context

  /** Blanks and the bracket that ends a link's text are neither letters nor digits, nor lower-case to any. */
  ghost predicate MarksDropped(abc: Alphabet) {
    forall c: char | IsSpace(c) || c == ']' :: KeepAlnum(abc, abc.lower(c)) == ""
  }

  // --- Removing link targets from a text in parts ----------------------------------------

  lemma {:induction false} LettersConcat(abc: Alphabet, s: string, r: string)
    ensures Letters(abc, s + r) == Letters(abc, s) + Letters(abc, r)
  {
    if s == "" {
      assert s + r == r;
    } else {
      assert (s + r)[1..] == s[1..] + r;
      LettersConcat(abc, s[1..], r);
      Regroup(KeepAlnum(abc, abc.lower(s[0])), Letters(abc, s[1..]), Letters(abc, r));
    }
  }

  lemma {:induction false} AfterTargetSuffix(s: string)
    ensures AfterTarget(s) == s[|s| - |AfterTarget(s)|..]
  {
    if s != "" && s[0] != ')' && !IsSpace(s[0]) {
      AfterTargetSuffix(s[1..]);
    }
  }

  /** Where the target of a link ends does not depend on what follows, unless it runs on to the end. */
  lemma {:induction false} AfterTargetAppend(p: string, q: string)
    ensures AfterTarget(p + q) == AfterTarget(p) + q || (AfterTarget(p) == "" && AfterTarget(p + q) == AfterTarget(q))
  {
    if p == "" {
      assert p + q == q;
    } else if p[0] == ')' {
      assert (p + q)[1..] == p[1..] + q;
    } else if !IsSpace(p[0]) {
      assert (p + q)[1..] == p[1..] + q;
      AfterTargetAppend(p[1..], q);
    }
  }

  /** Removing targets from left to right stops at `k`: it is not inside a target, nor between its "]" and "(". */
  predicate Rests(s: string, k: int)
    decreases |s|
  {
    if k <= 0 || s == "" then k == 0
    else if |s| >= 2 && s[0] == ']' && s[1] == '(' then Rests(AfterTarget(s[2..]), k - |s| + |AfterTarget(s[2..])|)
    else Rests(s[1..], k - 1)
  }

  /** Where the removal rests, the rest of the text is treated as if it stood alone. */
  lemma {:induction false} RestSplits(s: string, k: nat) returns (before: string)
    requires Rests(s, k)
    ensures k <= |s| && RemoveTargets(s) == before + RemoveTargets(s[k..])
    decreases |s|
  {
    before := "";
    if k > 0 {
      if |s| >= 2 && s[0] == ']' && s[1] == '(' {
        var rest := AfterTarget(s[2..]);
        AfterTargetSuffix(s[2..]);
        before := RestSplits(rest, k - |s| + |rest|);
        assert rest[k - |s| + |rest|..] == s[k..];
      } else {
        var more := RestSplits(s[1..], k - 1);
        before := [s[0]] + more;
        assert s[1..][k - 1..] == s[k..];
        Regroup([s[0]], more, RemoveTargets(s[k..]));
      }
    }
  }

  lemma RestKey(abc: Alphabet, s: string, k: nat) returns (before: string)
    requires Rests(s, k)
    ensures k <= |s| && ContextKey(abc, s) == before + ContextKey(abc, s[k..])
  {
    var x := RestSplits(s, k);
    LettersConcat(abc, x, RemoveTargets(s[k..]));
    before := Letters(abc, x);
  }

  /**
   * Removing targets from `p + q` gives what it gives for `p` and for `q` from `k` on, but for a "]" at the end
   * of `p` that begins a link with `q`.
   */
  ghost predicate Appends(p: string, q: string, k: nat)
    requires k <= |q|
  {
    || RemoveTargets(p + q) == RemoveTargets(p) + RemoveTargets(q[k..])
    || exists x :: RemoveTargets(p) == x + "]" && RemoveTargets(p + q) == x + RemoveTargets(q[k..])
  }

  lemma {:induction false} RemoveAppend(p: string, q: string) returns (k: nat)
    ensures k <= |q| && Appends(p, q, k)
    decreases |p|
  {
    k := 0;
    if p == "" {
      assert p + q == q;
    } else if |p| >= 2 && p[0] == ']' && p[1] == '(' {
      TargetDropped(p, q);
      AfterTargetAppend(p[2..], q);
      if AfterTarget(p[2..] + q) == AfterTarget(p[2..]) + q {
        k := RemoveAppend(AfterTarget(p[2..]), q);
      } else {
        k := |q| - |AfterTarget(q)|;
        AfterTargetSuffix(q);
      }
    } else if p == "]" && q != "" && q[0] == '(' {
      k := BracketAppend(p, q);
    } else {
      assert (p + q)[1..] == p[1..] + q;
      k := RemoveAppend(p[1..], q);
      RemoveNext(p, q, k);
    }
  }

  lemma TargetDropped(p: string, q: string)
    requires |p| >= 2 && p[0] == ']' && p[1] == '('
    ensures RemoveTargets(p) == RemoveTargets(AfterTarget(p[2..])) && RemoveTargets(p + q) == RemoveTargets(AfterTarget(p[2..] + q))
  {
    assert (p + q)[2..] == p[2..] + q;
  }

  lemma BracketAppend(p: string, q: string) returns (k: nat)
    requires p == "]" && q != "" && q[0] == '('
    ensures k <= |q| && Appends(p, q, k)
  {
    assert (p + q)[2..] == q[1..];
    k := |q| - |AfterTarget(q[1..])|;
    AfterTargetSuffix(q[1..]);
    assert RemoveTargets(p) == "" + "]" && RemoveTargets(p + q) == "" + RemoveTargets(q[k..]);
  }

  lemma RemoveNext(p: string, q: string, k: nat)
    requires p != "" && k <= |q| && (p + q)[1..] == p[1..] + q && Appends(p[1..], q, k)
    requires !(|p| >= 2 && p[0] == ']' && p[1] == '(') && !(p == "]" && q != "" && q[0] == '(')
    ensures Appends(p, q, k)
  {
    var rest, head := RemoveTargets(q[k..]), [p[0]];
    assert RemoveTargets(p + q) == head + RemoveTargets(p[1..] + q);
    if RemoveTargets(p[1..] + q) == RemoveTargets(p[1..]) + rest {
      Regroup(head, RemoveTargets(p[1..]), rest);
    } else {
      var x :| RemoveTargets(p[1..]) == x + "]" && RemoveTargets(p[1..] + q) == x + rest;
      Regroup(head, x, "]");
      Regroup(head, x, rest);
      assert RemoveTargets(p) == (head + x) + "]" && RemoveTargets(p + q) == (head + x) + rest;
    }
  }

  /** The key of a text is a prefix of the key of any longer text: what is cut at the end loses nothing. */
  lemma KeyAppend(abc: Alphabet, p: string, q: string) returns (k: nat)
    requires MarksDropped(abc)
    ensures k <= |q| && ContextKey(abc, p + q) == ContextKey(abc, p) + ContextKey(abc, q[k..])
  {
    k := RemoveAppend(p, q);
    var rest := RemoveTargets(q[k..]);
    if RemoveTargets(p + q) == RemoveTargets(p) + rest {
      LettersConcat(abc, RemoveTargets(p), rest);
    } else {
      var x :| RemoveTargets(p) == x + "]" && RemoveTargets(p + q) == x + rest;
      LettersConcat(abc, x, "]");
      LettersConcat(abc, x, rest);
      assert "]"[1..] == "" && Letters(abc, "]") == KeepAlnum(abc, abc.lower(']')) + "";
    }
  }

  /** Blanks before a text change nothing, and blanks alone have an empty key. */
  lemma {:induction false} BlanksBefore(abc: Alphabet, g: string, x: string)
    requires MarksDropped(abc) && AllBlank(g)
    ensures ContextKey(abc, g + x) == ContextKey(abc, x)
  {
    if g == "" {
      assert g + x == x;
    } else {
      assert (g + x)[1..] == g[1..] + x;
      assert g[0] != ']' && KeepAlnum(abc, abc.lower(g[0])) == "";
      BlanksBefore(abc, g[1..], x);
      assert ([g[0]] + RemoveTargets(g[1..] + x))[1..] == RemoveTargets(g[1..] + x);
    }
  }

  lemma BlanksAfter(abc: Alphabet, p: string, g: string)
    requires MarksDropped(abc) && AllBlank(g)
    ensures ContextKey(abc, p + g) == ContextKey(abc, p)
  {
    var k := KeyAppend(abc, p, g);
    BlanksBefore(abc, g[k..], "");
    assert g[k..] + "" == g[k..];
  }

  // --- The place a quote was taken from -----------------------------------------------------

  /**
   * The quote is [a, b) of this very text with up to `n` characters of context on each side, and
   * [s, e) is what is left of it when blanks at its ends are trimmed.
   */
  predicate TakenAround(text: string, quote: Quote, a: nat, b: nat, s: nat, e: nat, n: nat) {
    && a <= s < e <= b <= |text|
    && AllBlank(text[a..s]) && AllBlank(text[e..b])
    && quote.exact == text[a..b]
    && quote.prefix == text[Max(0, a - n)..a]
    && quote.suffix == text[b..Min(|text|, b + n)]
  }

  predicate TakenAt(text: string, quote: Quote, s: nat, e: nat, n: nat) {
    TakenAround(text, quote, s, e, s, e, n)
  }

  /**
   * The window read before `s` reaches back to the start of the saved prefix, and removing link
   * targets from it rests there. Without a prefix there is nothing to read.
   */
  predicate PrefixRests(text: string, a: nat, s: nat, n: nat)
    requires a <= s <= |text|
  {
    var near := Max(0, a - n);
    var from := Max(0, s - (a - near) * 3);
    near == a || (from <= near && Rests(text[from..s], near - from))
  }

  /** The window read after `e` reaches the end of the saved suffix. Without a suffix there is nothing to read. */
  predicate SuffixReaches(text: string, b: nat, e: nat, n: nat)
    requires e <= b <= |text|
  {
    var saved := Min(|text|, b + n) - b;
    saved == 0 || b - e <= saved * 2
  }

  /** A saved prefix matches in full at the end of any text in which the removal rests where it begins. */
  lemma PrefixMatches(abc: Alphabet, before: string, saved: string, gap: string)
    requires MarksDropped(abc) && AllBlank(gap) && Rests(before + (saved + gap), |before|)
    ensures SideMatch(ContextKey(abc, saved), ContextKey(abc, before + (saved + gap)), Prefix) == |ContextKey(abc, saved)|
  {
    var x := RestKey(abc, before + (saved + gap), |before|);
    assert (before + (saved + gap))[|before|..] == saved + gap;
    BlanksAfter(abc, saved, gap);
    FullSideMatch(ContextKey(abc, saved), ContextKey(abc, before + (saved + gap)), Prefix);
  }

  /** A saved suffix matches in full at the start of any text: a link may be cut anywhere. */
  lemma SuffixMatches(abc: Alphabet, gap: string, saved: string, rest: string)
    requires MarksDropped(abc) && AllBlank(gap)
    ensures SideMatch(ContextKey(abc, saved), ContextKey(abc, gap + (saved + rest)), Suffix) == |ContextKey(abc, saved)|
  {
    BlanksBefore(abc, gap, saved + rest);
    var k := KeyAppend(abc, saved, rest);
    FullSideMatch(ContextKey(abc, saved), ContextKey(abc, gap + (saved + rest)), Suffix);
  }

  lemma ScoreOfSide(abc: Alphabet, text: string, quote: Quote, c: Candidate, side: Side, window: string)
    requires Saved(quote, side) != "" && Window(text, c, quote, side) == window
    ensures SideScore(abc, text, c, quote, side) == SideMatch(ContextKey(abc, Saved(quote, side)), ContextKey(abc, window), side)
  {
  }

  lemma WindowBefore(text: string, quote: Quote, c: Candidate, from: nat, near: nat, a: nat)
    requires from <= near <= a <= c.start <= |text| && from == Max(0, c.start - |quote.prefix| * 3)
    ensures Window(text, c, quote, Prefix) == text[from..c.start] == text[from..near] + (text[near..a] + text[a..c.start])
  {
    SliceClamped(text, from, c.start);
    SliceJoin(text, from, near, c.start);
    SliceJoin(text, near, a, c.start);
  }

  lemma WindowAfter(text: string, quote: Quote, c: Candidate, b: nat, near: nat, to: nat)
    requires c.end <= b <= near <= to <= |text| && to == Min(|text|, c.end + |quote.suffix| * 3)
    ensures Window(text, c, quote, Suffix) == text[c.end..b] + (text[b..near] + text[near..to])
  {
    SliceClamped(text, c.end, c.end + |quote.suffix| * 3);
    SliceJoin(text, c.end, b, to);
    SliceJoin(text, b, near, to);
  }

  /** A prefix saved up to `a`, with nothing but blanks from there to the candidate. */
  lemma OwnPrefixAgrees(abc: Alphabet, text: string, quote: Quote, a: nat, c: Candidate, n: nat)
    requires MarksDropped(abc) && a <= c.start <= |text| && AllBlank(text[a..c.start])
    requires quote.prefix == text[Max(0, a - n)..a] && PrefixRests(text, a, c.start, n)
    ensures SideScore(abc, text, c, quote, Prefix) == |ContextKey(abc, quote.prefix)|
  {
    if quote.prefix != "" {
      var near, from := Max(0, a - n), Max(0, c.start - |quote.prefix| * 3);
      WindowBefore(text, quote, c, from, near, a);
      PrefixMatches(abc, text[from..near], quote.prefix, text[a..c.start]);
      ScoreOfSide(abc, text, quote, c, Prefix, text[from..near] + (quote.prefix + text[a..c.start]));
    }
  }

  /** A suffix saved from `b` on, with nothing but blanks from the candidate to there. */
  lemma OwnSuffixAgrees(abc: Alphabet, text: string, quote: Quote, b: nat, c: Candidate, n: nat)
    requires MarksDropped(abc) && c.end <= b <= |text| && AllBlank(text[c.end..b])
    requires quote.suffix == text[b..Min(|text|, b + n)] && SuffixReaches(text, b, c.end, n)
    ensures SideScore(abc, text, c, quote, Suffix) == |ContextKey(abc, quote.suffix)|
  {
    if quote.suffix != "" {
      var near, to := Min(|text|, b + n), Min(|text|, c.end + |quote.suffix| * 3);
      WindowAfter(text, quote, c, b, near, to);
      SuffixMatches(abc, text[c.end..b], quote.suffix, text[near..to]);
      ScoreOfSide(abc, text, quote, c, Suffix, text[c.end..b] + (quote.suffix + text[near..to]));
    }
  }

  /**
   * The place a quote was taken from fits its context in full, and so never conflicts, when the
   * windows reach the saved context and the one before the quote does not begin inside a link.
   */
  lemma OwnPlaceAgrees(abc: Alphabet, text: string, quote: Quote, a: nat, b: nat, c: Candidate, n: nat)
    requires MarksDropped(abc) && TakenAround(text, quote, a, b, c.start, c.end, n)
    requires PrefixRests(text, a, c.start, n) && SuffixReaches(text, b, c.end, n)
    ensures Score(abc, text, c, quote) == FullScore(abc, quote)
    ensures !Conflicts(abc, text, c, quote)
  {
    OwnPrefixAgrees(abc, text, quote, a, c, n);
    OwnSuffixAgrees(abc, text, quote, b, c, n);
    FullScoreAgrees(abc, text, c, quote);
  }

  /** Whatever links there are, only the side before the quote can make its own place conflict. */
  lemma OwnPlaceConflicts(abc: Alphabet, text: string, quote: Quote, a: nat, b: nat, c: Candidate, n: nat)
    requires MarksDropped(abc) && TakenAround(text, quote, a, b, c.start, c.end, n) && SuffixReaches(text, b, c.end, n)
    ensures Conflicts(abc, text, c, quote) <==> SideDisagrees(abc, text, c, quote, Prefix)
  {
    OwnSuffixAgrees(abc, text, quote, b, c, n);
  }

  /** Where no link starts before `k`, the removal rests there. */
  lemma {:induction false} LinkFreeRests(s: string, k: nat)
    requires k <= |s| && forall i | 0 <= i < k && i + 1 < |s| :: !(s[i] == ']' && s[i + 1] == '(')
    ensures Rests(s, k)
    decreases k
  {
    if k > 0 {
      assert |s| >= 2 ==> !(s[0] == ']' && s[0 + 1] == '(');
      forall i | 0 <= i < k - 1 && i + 1 < |s[1..]| ensures !(s[1..][i] == ']' && s[1..][i + 1] == '(') {
        assert !(s[i + 1] == ']' && s[i + 1 + 1] == '(');
      }
      LinkFreeRests(s[1..], k - 1);
    }
  }

  lemma {:induction false} CommonSuffixAtLeast(x: string, y: string, tail: string)
    ensures CommonSuffixLength(x + tail, y + tail) >= |tail|
    decreases |tail|
  {
    if tail != "" {
      var init, last := tail[..|tail| - 1], tail[|tail| - 1];
      assert (x + tail)[..|x + tail| - 1] == x + init && (y + tail)[..|y + tail| - 1] == y + init;
      CommonSuffixAtLeast(x, y, init);
    }
  }

  /** Two texts that are read alike from some place on have at least that much in common. */
  lemma TailCounts(abc: Alphabet, p: string, i: nat, w: string, j: nat, tail: string)
    requires Rests(p, i) && Rests(w, j) && i <= |p| && j <= |w| && p[i..] == w[j..] == tail
    ensures SideMatch(ContextKey(abc, p), ContextKey(abc, w), Prefix) >= |ContextKey(abc, tail)|
  {
    var x := RestKey(abc, p, i);
    var y := RestKey(abc, w, j);
    CommonSuffixAtLeast(x, y, ContextKey(abc, tail));
    UnskippedMatch(ContextKey(abc, p), ContextKey(abc, w));
  }

  /**
   * Where the saved prefix begins inside a link, whatever follows some place that both readings rest at still
   * counts, and is enough when it is as much as the comparison asks for.
   */
  lemma CutLinkStillAgrees(abc: Alphabet, text: string, quote: Quote, c: Candidate, i: nat, j: nat)
    requires quote.prefix != "" && i <= |quote.prefix| && j <= |Window(text, c, quote, Prefix)|
    requires Rests(quote.prefix, i) && Rests(Window(text, c, quote, Prefix), j)
    requires quote.prefix[i..] == Window(text, c, quote, Prefix)[j..]
    ensures SideScore(abc, text, c, quote, Prefix) >= |ContextKey(abc, quote.prefix[i..])|
    ensures |ContextKey(abc, quote.prefix[i..])| >= Needed(|ContextKey(abc, quote.prefix)|) ==> !SideDisagrees(abc, text, c, quote, Prefix)
  {
    TailCounts(abc, quote.prefix, i, Window(text, c, quote, Prefix), j, quote.prefix[i..]);
  }
}
