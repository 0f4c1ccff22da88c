/** What all modules share: optional values (`None` stands for an absent, null or undefined one), and facts on sequences. */
module Wrappers {
  datatype Option<+T> = None | Some(value: T) {
    function GetOr(default: T): T {
      if Some? then value else default
    }
  }

  /** Concatenation is associative; stated so that a proof can ask for it. */
  lemma Regroup<T>(a: seq<T>, b: seq<T>, c: seq<T>)
    ensures (a + b) + c == a + (b + c)
  {
  }

  /** Slices of a slice are slices of the whole. */
  lemma SliceOfSlice<T>(s: seq<T>, i: nat, j: nat, a: nat, b: nat)
    requires i <= j <= |s| && a <= b <= j - i
    ensures s[i..j][a..b] == s[i + a..i + b]
    ensures s[i..j][a..] == s[i + a..j]
    ensures s[i..j][..b] == s[i..i + b]
  {
    var l, r := s[i..j][a..b], s[i + a..i + b];
    assert forall k | 0 <= k < |l| :: l[k] == r[k];
    var m, n := s[i..j][a..], s[i + a..j];
    assert forall k | 0 <= k < |m| :: m[k] == n[k];
  }

  lemma SliceJoin<T>(s: seq<T>, i: nat, m: nat, j: nat)
    requires i <= m <= j <= |s|
    ensures s[i..j] == s[i..m] + s[m..j]
  {
  }
}
