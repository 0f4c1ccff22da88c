/** A stable sort, as `Array.prototype.sort` is with a consistent comparison. */
module Sorting {
  import opened Wrappers

  ghost predicate TotalPreorder<T(!new)>(le: (T, T) -> bool) {
    && (forall x, y :: le(x, y) || le(y, x))
    && (forall x, y, z :: le(x, y) && le(y, z) ==> le(x, z))
  }

  ghost predicate Sorted<T>(s: seq<T>, le: (T, T) -> bool) {
    forall i, j | 0 <= i < j < |s| :: le(s[i], s[j])
  }

  /** `x` goes in front of the first element it may precede, so equal elements keep their order. */
  function Insert<T>(x: T, s: seq<T>, le: (T, T) -> bool): (r: seq<T>)
    ensures multiset(r) == multiset{x} + multiset(s)
  {
    if s == [] || le(x, s[0]) then
      [x] + s
    else
      assert s == [s[0]] + s[1..];
      [s[0]] + Insert(x, s[1..], le)
  }

  function Sort<T>(s: seq<T>, le: (T, T) -> bool): (r: seq<T>)
    ensures multiset(r) == multiset(s)
    ensures |r| == |s|
  {
    if s == [] then []
    else
      assert s == [s[0]] + s[1..];
      var r := Insert(s[0], Sort(s[1..], le), le);
      assert |multiset(r)| == |r| && |multiset(s)| == |s|;
      r
  }

  lemma SameElements<T>(s: seq<T>, r: seq<T>, x: T)
    requires multiset(s) == multiset(r)
    ensures x in s <==> x in r
  {
    assert x in s <==> x in multiset(s);
    assert x in r <==> x in multiset(r);
  }

  /** An element at two places is counted twice. */
  lemma CountedTwice<T>(s: seq<T>, j: nat, k: nat)
    requires j < k < |s| && s[j] == s[k]
    ensures multiset(s)[s[j]] >= 2
  {
    assert s == s[..j] + [s[j]] + s[j + 1..k] + [s[k]] + s[k + 1..];
  }

  lemma {:induction false} InsertSorts<T(!new)>(x: T, s: seq<T>, le: (T, T) -> bool)
    requires TotalPreorder(le) && Sorted(s, le)
    ensures Sorted(Insert(x, s, le), le)
  {
    if s != [] && !le(x, s[0]) {
      InsertSorts(x, s[1..], le);
      var rest := Insert(x, s[1..], le);
      forall y | y in rest ensures le(s[0], y) {
        assert y in multiset(rest) && (y == x || y in multiset(s[1..]));
      }
    }
  }

  lemma {:induction false} SortSorts<T(!new)>(s: seq<T>, le: (T, T) -> bool)
    requires TotalPreorder(le)
    ensures Sorted(Sort(s, le), le)
  {
    if s != [] {
      SortSorts(s[1..], le);
      InsertSorts(s[0], Sort(s[1..], le), le);
    }
  }

  lemma {:induction false} InsertFront<T>(x: T, s: seq<T>, le: (T, T) -> bool)
    requires forall y | y in s :: le(x, y)
    ensures Insert(x, s, le) == [x] + s
  {
  }

  /** A sorted sequence is left as it is, ties included. */
  lemma {:induction false} SortIdentity<T>(s: seq<T>, le: (T, T) -> bool)
    requires Sorted(s, le)
    ensures Sort(s, le) == s
  {
    if s != [] {
      SortIdentity(s[1..], le);
      InsertFront(s[0], s[1..], le);
    }
  }

  function Filter<T>(s: seq<T>, keep: T -> bool): (r: seq<T>)
    ensures forall x | x in r :: x in s && keep(x)
    ensures forall x | x in s && keep(x) :: x in r
    ensures |r| <= |s|
  {
    if s == [] then []
    else if keep(s[0]) then [s[0]] + Filter(s[1..], keep)
    else Filter(s[1..], keep)
  }

  lemma {:induction false} FilterConcat<T>(s: seq<T>, r: seq<T>, keep: T -> bool)
    ensures Filter(s + r, keep) == Filter(s, keep) + Filter(r, keep)
  {
    if s == [] {
      assert s + r == r;
    } else {
      assert (s + r)[1..] == s[1..] + r;
      FilterConcat(s[1..], r, keep);
      Regroup([s[0]], Filter(s[1..], keep), Filter(r, keep));
    }
  }

  lemma {:induction false} FilterAll<T>(s: seq<T>, keep: T -> bool)
    requires forall x | x in s :: keep(x)
    ensures Filter(s, keep) == s
  {
    if s != [] {
      FilterAll(s[1..], keep);
    }
  }

  lemma {:induction false} InsertFilter<T(!new)>(x: T, s: seq<T>, le: (T, T) -> bool, keep: T -> bool)
    requires TotalPreorder(le) && Sorted(s, le)
    ensures Filter(Insert(x, s, le), keep) == if keep(x) then Insert(x, Filter(s, keep), le) else Filter(s, keep)
  {
    if s == [] || le(x, s[0]) {
      assert ([x] + s)[1..] == s;
      forall y | y in Filter(s, keep) ensures le(x, y) {
        assert le(x, s[0]) && (y == s[0] || le(s[0], y));
      }
      InsertFront(x, Filter(s, keep), le);
    } else {
      InsertFilter(x, s[1..], le, keep);
      assert ([s[0]] + Insert(x, s[1..], le))[1..] == Insert(x, s[1..], le);
      if keep(s[0]) {
        assert ([s[0]] + Filter(s[1..], keep))[1..] == Filter(s[1..], keep);
      }
    }
  }

  /** Stability: what is left out does not change the order of the rest. */
  lemma {:induction false} SortFilter<T(!new)>(s: seq<T>, le: (T, T) -> bool, keep: T -> bool)
    requires TotalPreorder(le)
    ensures Filter(Sort(s, le), keep) == Sort(Filter(s, keep), le)
  {
    if s != [] {
      SortFilter(s[1..], le, keep);
      SortSorts(s[1..], le);
      InsertFilter(s[0], Sort(s[1..], le), le, keep);
      if keep(s[0]) {
        assert ([s[0]] + Filter(s[1..], keep))[1..] == Filter(s[1..], keep);
      }
    }
  }

  function Map<T, U>(s: seq<T>, f: T -> U): (r: seq<U>)
    ensures |r| == |s|
    ensures forall i | 0 <= i < |s| :: r[i] == f(s[i])
  {
    seq(|s|, i requires 0 <= i < |s| => f(s[i]))
  }

  lemma MapCons<T, U>(x: T, s: seq<T>, f: T -> U)
    ensures Map([x] + s, f) == [f(x)] + Map(s, f)
  {
  }

  lemma InsertNext<T>(x: T, y: T, s: seq<T>, le: (T, T) -> bool)
    ensures Insert(x, [y] + s, le) == if le(x, y) then [x] + ([y] + s) else [y] + Insert(x, s, le)
  {
    assert ([y] + s)[1..] == s;
  }

  lemma {:induction false} InsertMap<T(!new), U(!new)>(x: T, s: seq<T>, f: T -> U, le: (T, T) -> bool, le': (U, U) -> bool)
    requires forall a, b :: le(a, b) <==> le'(f(a), f(b))
    ensures Map(Insert(x, s, le), f) == Insert(f(x), Map(s, f), le')
  {
    if s == [] {
      MapCons(x, s, f);
    } else {
      var y, rest := s[0], s[1..];
      assert s == [y] + rest;
      InsertMap(x, rest, f, le, le');
      MapCons(y, rest, f);
      InsertNext(x, y, rest, le);
      InsertNext(f(x), f(y), Map(rest, f), le');
      if le(x, y) {
        MapCons(x, s, f);
      } else {
        MapCons(y, Insert(x, rest, le), f);
      }
    }
  }

  /** What does not change the order can be done before sorting or after. */
  lemma {:induction false} SortMap<T(!new), U(!new)>(s: seq<T>, f: T -> U, le: (T, T) -> bool, le': (U, U) -> bool)
    requires forall a, b :: le(a, b) <==> le'(f(a), f(b))
    ensures Sort(Map(s, f), le') == Map(Sort(s, le), f)
  {
    if s != [] {
      SortMap(s[1..], f, le, le');
      assert Map(s, f)[1..] == Map(s[1..], f);
      InsertMap(s[0], Sort(s[1..], le), f, le, le');
    }
  }
}
