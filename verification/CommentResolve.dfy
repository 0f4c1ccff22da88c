/**
 * Resolving and reopening a comment in both cached lists, and rolling a rejected change back
 * (live/src/hooks/use-comments.ts, `withResolvedComment` to `restoreThread`).
 */
module CommentResolve {
  import opened Wrappers
  import opened Sorting
  import opened Comments

  // --- The operations -----------------------------------------------------------------

  function Flagged(e: Entry, resolved: bool): Entry {
    e.(resolved := resolved)
  }

  function FlagThread(t: Thread, id: Id, resolved: bool): Thread {
    if t.root.id == id then Thread(Flagged(t.root, resolved), t.replies)
    else Thread(t.root, Map(t.replies, (r: Entry) => if r.id == id then Flagged(r, resolved) else r))
  }

  function WithResolved(list: Threads, id: Id, resolved: bool): Threads {
    Map(list, (t: Thread) => FlagThread(t, id, resolved))
  }

  function FindRoot(list: Threads, id: Id): Option<Thread> {
    var i := RootIndex(list, id);
    if i < 0 then None else Some(list[i])
  }

  function FindThread(list: Threads, id: Id): (r: Option<Thread>)
    ensures r.Some? ==> r.value in list && Mentions(r.value, id)
    ensures r.None? ==> !Listed(list, id)
  {
    if list == [] then None
    else if Mentions(list[0], id) then Some(list[0])
    else FindThread(list[1..], id)
  }

  function DropRoot(list: Threads, id: Id): Threads {
    Filter(list, (t: Thread) => t.root.id != id)
  }

  /** The list of unresolved threads: a resolved root leaves it, a reopened one comes back from the list of all. */
  function WithUnresolved(list: Threads, id: Id, resolved: bool, all: Option<Threads>): Threads {
    var updated := WithResolved(list, id, resolved);
    if resolved then DropRoot(updated, id)
    else if FindRoot(updated, id).Some? then updated
    else
      var reopened := if all.Some? then FindRoot(all.value, id) else None;
      if reopened.None? then updated
      else Sort([Thread(Flagged(reopened.value.root, false), reopened.value.replies)] + updated, Newer)
  }

  function WithFlagsOf(e: Entry, before: Entry): Entry {
    e.(resolved := before.resolved, resolvedBy := before.resolvedBy, resolvedAt := before.resolvedAt)
  }

  function FindReply(replies: seq<Entry>, id: Id): Option<Entry> {
    if replies == [] then None
    else if replies[0].id == id then Some(replies[0])
    else FindReply(replies[1..], id)
  }

  /** The thread as it is now, with the resolution it had before. */
  function RestoreFlags(now: Thread, id: Id, previous: Thread): Thread {
    if id == previous.root.id then Thread(WithFlagsOf(now.root, previous.root), now.replies)
    else
      var before := FindReply(previous.replies, id);
      Thread(now.root,
             Map(now.replies, (r: Entry) => if r.id == id && before.Some? then WithFlagsOf(r, before.value) else r))
  }

  function RestoreThread(list: Threads, id: Id, previous: Option<Thread>, concurrent: Option<Threads>): Threads {
    match previous
    case None => DropRoot(list, id)
    case Some(before) =>
      var here := FindRoot(list, before.root.id);
      var now := if here.Some? then here
                 else if concurrent.Some? then FindRoot(concurrent.value, before.root.id) else None;
      var restored := if now.Some? then RestoreFlags(now.value, id, before) else before;
      Sort([restored] + DropRoot(list, before.root.id), Newer)
  }

  /** The two cached lists of a file: unresolved threads, and all threads. */
  datatype Caches = Caches(open: Option<Threads>, all: Option<Threads>)

  /** What the mutation remembers for its rollback. */
  datatype Remembered = Remembered(open: Option<Thread>, all: Option<Thread>)

  function Recall(data: Option<Threads>, id: Id): Option<Thread> {
    if data.None? then None else FindThread(data.value, id)
  }

  function Remember(c: Caches, id: Id): Remembered {
    Remembered(Recall(c.open, id), Recall(c.all, id))
  }

  function Resolve(c: Caches, id: Id, resolved: bool): Caches {
    Caches(Update(c.open, (list: Threads) => WithUnresolved(list, id, resolved, c.all)),
           Update(c.all, (list: Threads) => WithResolved(list, id, resolved)))
  }

  function RollBack(c: Caches, id: Id, before: Remembered): Caches {
    Caches(Update(c.open, (list: Threads) => RestoreThread(list, id, before.open, c.all)),
           Update(c.all, (list: Threads) => RestoreThread(list, id, before.all, c.open)))
  }

  function AddBoth(c: Caches, e: Entry): Caches {
    Caches(Update(c.open, (list: Threads) => AddOptimistic(list, e)), Update(c.all, (list: Threads) => AddOptimistic(list, e)))
  }

  // --- Ordered lists ------------------------------------------------------------------------

  ghost predicate DistinctRoots(list: Threads) {
    forall i, j | 0 <= i < j < |list| :: list[i].root.id != list[j].root.id
  }

  /** No other thread created at the same time comes before it. */
  predicate FirstOfItsAge(list: Threads, t: Thread) {
    forall i, j | 0 <= i < j < |list| && list[j] == t :: list[i].root.createdAt != t.root.createdAt
  }

  lemma {:induction false} FilterSorted(list: Threads, keep: Thread -> bool)
    requires Sorted(list, Newer)
    ensures Sorted(Filter(list, keep), Newer)
  {
    if list != [] {
      FilterSorted(list[1..], keep);
      forall x | x in Filter(list[1..], keep) ensures Newer(list[0], x) {
        assert x in list[1..];
      }
    }
  }

  /** Sorting a thread into an ordered list inserts it, in front of those of the same age. */
  lemma SortInserts(list: Threads, t: Thread)
    requires Sorted(list, Newer)
    ensures Sort([t] + list, Newer) == Insert(t, list, Newer)
  {
    assert ([t] + list)[1..] == list;
    SortIdentity(list, Newer);
  }

  lemma InsertAtHead(rest: Threads, t: Thread)
    requires DistinctRoots([t] + rest) && Sorted([t] + rest, Newer)
    ensures Insert(t, DropRoot([t] + rest, t.root.id), Newer) == [t] + rest && FirstOfItsAge([t] + rest, t)
  {
    var list := [t] + rest;
    assert list[1..] == rest;
    forall x | x in rest ensures x.root.id != t.root.id && Newer(t, x) {
      var i :| 0 <= i < |rest| && rest[i] == x;
      assert list[0] == t && list[i + 1] == x;
    }
    FilterAll(rest, (x: Thread) => x.root.id != t.root.id);
    InsertFront(t, rest, Newer);
  }

  /** Behind a thread of the same age it comes back in front of it. */
  lemma InsertTooEarly(list: Threads, t: Thread, k: nat)
    requires 0 < k < |list| && list[k] == t && list[0].root.id != t.root.id && Newer(list[0], t) && Newer(t, list[0])
    ensures Insert(t, DropRoot(list, t.root.id), Newer) != list && !FirstOfItsAge(list, t)
  {
    assert DropRoot(list, t.root.id)[0] == list[0];
  }

  /** Taking a thread out of an ordered list and inserting it again gives the list exactly when it was the first of its age. */
  lemma {:induction false} InsertBack(list: Threads, t: Thread)
    requires DistinctRoots(list) && Sorted(list, Newer) && t in list
    ensures Insert(t, DropRoot(list, t.root.id), Newer) == list <==> FirstOfItsAge(list, t)
  {
    var first, rest := list[0], list[1..];
    assert list == [first] + rest;
    if first == t {
      InsertAtHead(rest, t);
    } else {
      var k :| 0 < k < |list| && list[k] == t;
      assert first.root.id != t.root.id && Newer(first, t);
      if Newer(t, first) {
        InsertTooEarly(list, t, k);
      } else {
        assert rest[k - 1] == t;
        InsertBack(rest, t);
        FirstInRest(list, t);
        InsertLater(first, rest, t);
      }
    }
  }

  lemma InsertLater(first: Thread, rest: Threads, t: Thread)
    requires first.root.id != t.root.id && !Newer(t, first)
    ensures Insert(t, DropRoot([first] + rest, t.root.id), Newer) == [first] + Insert(t, DropRoot(rest, t.root.id), Newer)
    ensures Insert(t, DropRoot([first] + rest, t.root.id), Newer) == [first] + rest <==> Insert(t, DropRoot(rest, t.root.id), Newer) == rest
  {
    assert ([first] + rest)[1..] == rest;
    var dropped, more := DropRoot(rest, t.root.id), Insert(t, DropRoot(rest, t.root.id), Newer);
    assert ([first] + dropped)[1..] == dropped;
    assert ([first] + more)[1..] == more;
  }

  lemma FirstInRest(list: Threads, t: Thread)
    requires list != [] && list[0] != t && list[0].root.createdAt != t.root.createdAt
    ensures FirstOfItsAge(list, t) <==> FirstOfItsAge(list[1..], t)
  {
    if FirstOfItsAge(list, t) {
      forall i, j | 0 <= i < j < |list[1..]| && list[1..][j] == t ensures list[1..][i].root.createdAt != t.root.createdAt {
        assert list[i + 1] == list[1..][i] && list[j + 1] == t;
      }
    }
    if FirstOfItsAge(list[1..], t) {
      forall i, j | 0 <= i < j < |list| && list[j] == t ensures list[i].root.createdAt != t.root.createdAt {
        assert list[1..][j - 1] == t;
        if i > 0 {
          assert list[1..][i - 1] == list[i];
        }
      }
    }
  }

  /** Putting a thread back in front of the others and sorting. */
  lemma PutBack(list: Threads, t: Thread)
    requires DistinctRoots(list) && Sorted(list, Newer) && t in list
    ensures Sort([t] + DropRoot(list, t.root.id), Newer) == list <==> FirstOfItsAge(list, t)
  {
    FilterSorted(list, (x: Thread) => x.root.id != t.root.id);
    SortInserts(DropRoot(list, t.root.id), t);
    InsertBack(list, t);
  }

  /** Taking out a thread that was sorted in gives back the list it was added to. */
  lemma TakeOut(list: Threads, t: Thread)
    requires Sorted(list, Newer) && forall x | x in list :: x.root.id != t.root.id
    ensures DropRoot(Sort([t] + list, Newer), t.root.id) == list
  {
    SortInserts(list, t);
    InsertThenDrop(list, t);
  }

  lemma {:induction false} InsertThenDrop(list: Threads, t: Thread)
    requires forall x | x in list :: x.root.id != t.root.id
    ensures DropRoot(Insert(t, list, Newer), t.root.id) == list
  {
    if list == [] || Newer(t, list[0]) {
      assert ([t] + list)[1..] == list;
      FilterAll(list, (x: Thread) => x.root.id != t.root.id);
    } else {
      InsertThenDrop(list[1..], t);
      assert ([list[0]] + Insert(t, list[1..], Newer))[1..] == Insert(t, list[1..], Newer);
      assert list == [list[0]] + list[1..];
    }
  }

  // --- A reply added in between -----------------------------------------------------------------

  /** The thread after a reply was added, if there was one and it belongs there. */
  function Grow(t: Thread, e: Option<Entry>): Thread {
    if e.Some? && e.value.parentId == Some(t.root.id) then WithReply(t, e.value) else t
  }

  function GrowAll(list: Threads, e: Option<Entry>): Threads {
    Map(list, (t: Thread) => Grow(t, e))
  }

  lemma GrowIsAdd(list: Threads, e: Entry)
    requires e.parentId.Some?
    ensures GrowAll(list, Some(e)) == AddOptimistic(list, e)
  {
  }

  lemma GrowNothing(list: Threads)
    ensures GrowAll(list, None) == list
  {
  }

  /** Growing changes neither roots nor order. */
  lemma GrownOrdered(list: Threads, e: Option<Entry>)
    requires DistinctRoots(list) && Sorted(list, Newer)
    ensures DistinctRoots(GrowAll(list, e)) && Sorted(GrowAll(list, e), Newer)
  {
    forall t | t in list ensures Grower(e)(t).root.id == t.root.id && Grower(e)(t).root.createdAt == t.root.createdAt {
    }
    MappedOrdered(list, Grower(e), Grower(e));
    assert GrowAll(list, e) == Map(list, Grower(e));
  }

  // --- One list, one thread -----------------------------------------------------------------------

  /** Flagging a comment that is not there changes nothing. */
  lemma FlagElsewhere(t: Thread, id: Id, resolved: bool)
    requires !Mentions(t, id)
    ensures FlagThread(t, id, resolved) == t
  {
    forall i | 0 <= i < |t.replies| ensures t.replies[i].id != id {
      assert t.replies[i] in t.replies;
    }
  }

  lemma {:induction false} FindReplyFinds(replies: seq<Entry>, id: Id, k: nat)
    requires forall i, j | 0 <= i < j < |replies| :: replies[i].id != replies[j].id
    requires k < |replies| && replies[k].id == id
    ensures FindReply(replies, id) == Some(replies[k])
  {
    if k > 0 {
      FindReplyFinds(replies[1..], id, k - 1);
    }
  }

  /** Flag one reply, append others, then restore that one's flags. */
  lemma {:induction false} RepliesRestored(replies: seq<Entry>, id: Id, resolved: bool, before: Entry, k: nat, more: seq<Entry>)
    requires forall i, j | 0 <= i < j < |replies| :: replies[i].id != replies[j].id
    requires k < |replies| && replies[k].id == id && replies[k] == before
    requires forall r | r in more :: r.id != id
    ensures Map(Map(replies, (r: Entry) => if r.id == id then Flagged(r, resolved) else r) + more,
                (r: Entry) => if r.id == id then WithFlagsOf(r, before) else r)
            == replies + more
  {
    var flagged := Map(replies, (r: Entry) => if r.id == id then Flagged(r, resolved) else r);
    var restored := Map(flagged + more, (r: Entry) => if r.id == id then WithFlagsOf(r, before) else r);
    forall i | 0 <= i < |replies| + |more| ensures restored[i] == (replies + more)[i] {
      if i >= |replies| {
        assert (flagged + more)[i] == more[i - |replies|] && more[i - |replies|] in more;
      } else if i != k {
        assert replies[i].id != replies[k].id;
      }
    }
  }

  /** Flag, grow, then restore the flags: what remains is the growth. */
  lemma FlagsRestored(parent: Parents, t: Thread, id: Id, resolved: bool, e: Option<Entry>)
    requires ThreadOk(parent, t) && Mentions(t, id) && (e.Some? ==> e.value.id != id)
    ensures RestoreFlags(Grow(FlagThread(t, id, resolved), e), id, t) == Grow(t, e)
  {
    if t.root.id == id {
      RootFlagsRestored(t, t, resolved, e);
    } else {
      ReplyFlagsRestored(t, id, resolved, e);
    }
  }

  lemma ReplyFlagsRestored(t: Thread, id: Id, resolved: bool, e: Option<Entry>)
    requires forall i, j | 0 <= i < j < |t.replies| :: t.replies[i].id != t.replies[j].id
    requires t.root.id != id && HasReply(t, id) && (e.Some? ==> e.value.id != id)
    ensures RestoreFlags(Grow(FlagThread(t, id, resolved), e), id, t) == Grow(t, e)
  {
    var k :| 0 <= k < |t.replies| && t.replies[k].id == id;
    FindReplyFinds(t.replies, id, k);
    var grown := Grow(FlagThread(t, id, resolved), e);
    var more := if e.Some? && e.value.parentId == Some(t.root.id) then [e.value] else [];
    RepliesRestored(t.replies, id, resolved, t.replies[k], k, more);
    var flagged := Map(t.replies, (r: Entry) => if r.id == id then Flagged(r, resolved) else r);
    assert flagged + [] == flagged && t.replies + [] == t.replies;
    assert grown.replies == flagged + more;
    assert RestoreFlags(grown, id, t).replies
           == Map(flagged + more, (r: Entry) => if r.id == id then WithFlagsOf(r, t.replies[k]) else r);
  }

  /** The same thread but for the resolution of its root. */
  predicate SameButFlags(a: Thread, b: Thread) {
    a.replies == b.replies && WithFlagsOf(a.root, b.root) == b.root
  }

  lemma RootFlagsRestored(a: Thread, t: Thread, resolved: bool, e: Option<Entry>)
    requires a.root.id == t.root.id
    ensures RestoreFlags(Grow(FlagThread(a, t.root.id, resolved), e), t.root.id, t) == Grow(t, e) <==> SameButFlags(a, t)
  {
    var r := RestoreFlags(Grow(FlagThread(a, t.root.id, resolved), e), t.root.id, t);
    if e.Some? && e.value.parentId == Some(t.root.id) {
      assert a.replies + [e.value] == t.replies + [e.value] <==> a.replies == t.replies by {
        assert (a.replies + [e.value])[..|a.replies|] == a.replies;
        assert (t.replies + [e.value])[..|t.replies|] == t.replies;
      }
    }
  }

  lemma DropRootCons(t: Thread, rest: Threads, id: Id)
    ensures DropRoot([t] + rest, id) == if t.root.id == id then DropRoot(rest, id) else [t] + DropRoot(rest, id)
  {
    assert ([t] + rest)[1..] == rest;
  }

  /** The two maps agree on every thread but the one with this root, and keep roots. */
  lemma {:induction false} DropRootOfMap(list: Threads, f: Thread -> Thread, g: Thread -> Thread, id: Id)
    requires forall t | t in list :: f(t).root.id == t.root.id == g(t).root.id && (t.root.id != id ==> f(t) == g(t))
    ensures DropRoot(Map(list, f), id) == DropRoot(Map(list, g), id)
    ensures DropRoot(Map(list, g), id) == Map(DropRoot(list, id), g)
    decreases |list|
  {
    if list != [] {
      var t, rest := list[0], list[1..];
      assert list == [t] + rest && t in list;
      DropRootOfMap(rest, f, g, id);
      DropRootOfCons(t, rest, f, g, id);
    }
  }

  lemma DropRootOfCons(t: Thread, rest: Threads, f: Thread -> Thread, g: Thread -> Thread, id: Id)
    requires f(t).root.id == t.root.id == g(t).root.id && (t.root.id != id ==> f(t) == g(t))
    requires DropRoot(Map(rest, f), id) == DropRoot(Map(rest, g), id) == Map(DropRoot(rest, id), g)
    ensures DropRoot(Map([t] + rest, f), id) == DropRoot(Map([t] + rest, g), id) == Map(DropRoot([t] + rest, id), g)
  {
    MapCons(t, rest, f);
    MapCons(t, rest, g);
    DropRootCons(f(t), Map(rest, f), id);
    DropRootCons(g(t), Map(rest, g), id);
    DropRootCons(t, rest, id);
    MapCons(t, DropRoot(rest, id), g);
  }

  lemma {:induction false} FindRootFinds(list: Threads, t: Thread)
    requires DistinctRoots(list) && t in list
    ensures FindRoot(list, t.root.id) == Some(t)
  {
    var i := RootIndex(list, t.root.id);
    assert i >= 0;
    var k :| 0 <= k < |list| && list[k] == t;
    assert i == k;
  }

  /** Only one thread of a well-formed list mentions a given comment. */
  lemma MentionedOnce(parent: Parents, list: Threads, s: Thread, t: Thread, id: Id)
    requires ListOk(parent, list) && s in list && t in list && Mentions(s, id) && Mentions(t, id)
    ensures s == t
  {
    assert ThreadOk(parent, s) && ThreadOk(parent, t);
    assert s.root.id == t.root.id;
    FindRootFinds(list, s);
    FindRootFinds(list, t);
  }

  /** Restoring one changed thread of a list gives the list with that thread restored exactly if it was first of its age. */
  lemma RestoreMapped(list: Threads, t: Thread, id: Id, f: Thread -> Thread, g: Thread -> Thread, concurrent: Option<Threads>)
    requires DistinctRoots(list) && Sorted(list, Newer) && t in list
    requires forall x | x in list :: f(x).root.id == x.root.id == g(x).root.id && g(x).root.createdAt == x.root.createdAt
    requires forall x | x in list && x != t :: f(x) == g(x)
    requires RestoreFlags(f(t), id, t) == g(t)
    ensures RestoreThread(Map(list, f), id, Some(t), concurrent) == Map(list, g) <==> FirstOfItsAge(list, t)
  {
    MappedOrdered(list, f, g);
    InMap(list, t, f);
    InMap(list, t, g);
    DropRootOfMap(list, f, g, t.root.id);
    RestoreHere(Map(list, f), f(t), id, t, concurrent);
    PutBack(Map(list, g), g(t));
    FirstInMap(list, t, g);
  }

  /** A thread whose root is still listed is restored from what is listed. */
  lemma RestoreHere(list: Threads, now: Thread, id: Id, before: Thread, concurrent: Option<Threads>)
    requires DistinctRoots(list) && now in list && now.root.id == before.root.id
    ensures RestoreThread(list, id, Some(before), concurrent) == Sort([RestoreFlags(now, id, before)] + DropRoot(list, before.root.id), Newer)
  {
    FindRootFinds(list, now);
  }

  lemma FirstInMap(list: Threads, t: Thread, g: Thread -> Thread)
    requires DistinctRoots(list) && t in list
    requires forall x | x in list :: g(x).root.id == x.root.id && g(x).root.createdAt == x.root.createdAt
    ensures FirstOfItsAge(Map(list, g), g(t)) <==> FirstOfItsAge(list, t)
  {
    var k :| 0 <= k < |list| && list[k] == t;
    forall i | 0 <= i < |list| ensures list[i] in list && (Map(list, g)[i] == g(t) <==> list[i] == t)
                                       && Map(list, g)[i].root.createdAt == list[i].root.createdAt {
      if i != k {
        assert list[i].root.id != list[k].root.id;
      }
    }
  }

  lemma InMap(list: Threads, t: Thread, f: Thread -> Thread)
    requires t in list
    ensures f(t) in Map(list, f)
  {
    var k :| 0 <= k < |list| && list[k] == t;
    assert Map(list, f)[k] == f(t);
  }

  lemma MappedOrdered(list: Threads, f: Thread -> Thread, g: Thread -> Thread)
    requires DistinctRoots(list) && Sorted(list, Newer)
    requires forall x | x in list :: f(x).root.id == x.root.id == g(x).root.id && g(x).root.createdAt == x.root.createdAt
    ensures DistinctRoots(Map(list, f)) && DistinctRoots(Map(list, g)) && Sorted(Map(list, g), Newer)
  {
    assert forall i | 0 <= i < |list| :: list[i] in list;
  }

  function Flagger(id: Id, resolved: bool, e: Option<Entry>): Thread -> Thread {
    (t: Thread) => Grow(FlagThread(t, id, resolved), e)
  }

  function Grower(e: Option<Entry>): Thread -> Thread {
    (t: Thread) => Grow(t, e)
  }

  /** What the two changes do to a thread, by whether the flagged comment is in it. */
  lemma FlaggerFacts(t: Thread, id: Id, resolved: bool, e: Option<Entry>)
    ensures Flagger(id, resolved, e)(t).root.id == t.root.id == Grower(e)(t).root.id
    ensures Grower(e)(t).root.createdAt == t.root.createdAt
    ensures !Mentions(t, id) ==> Flagger(id, resolved, e)(t) == Grower(e)(t)
  {
    if !Mentions(t, id) {
      FlagElsewhere(t, id, resolved);
    }
  }

  lemma FlagGrowMap(list: Threads, id: Id, resolved: bool, e: Option<Entry>)
    ensures GrowAll(WithResolved(list, id, resolved), e) == Map(list, Flagger(id, resolved, e))
    ensures GrowAll(list, e) == Map(list, Grower(e))
  {
  }

  /** The thread of a comment, if it is listed, is the first of its age. */
  predicate LeadsItsAge(list: Threads, id: Id) {
    FindThread(list, id).Some? ==> FirstOfItsAge(list, FindThread(list, id).value)
  }

  /** Flagging in place, growing, restoring: the list with just the growth, exactly if the thread was first of its age. */
  lemma FlagThenRestore(parent: Parents, list: Threads, id: Id, resolved: bool, e: Option<Entry>, concurrent: Option<Threads>)
    requires ListOk(parent, list) && Sorted(list, Newer) && (e.Some? ==> e.value.id != id)
    ensures RestoreThread(GrowAll(WithResolved(list, id, resolved), e), id, FindThread(list, id), concurrent) == GrowAll(list, e)
            <==> LeadsItsAge(list, id)
  {
    var found := FindThread(list, id);
    FlagGrowMap(list, id, resolved, e);
    FlagsApart(parent, list, id, resolved, e);
    if found.Some? {
      assert ThreadOk(parent, found.value);
      FlagsRestored(parent, found.value, id, resolved, e);
    }
    FlaggedBack(list, id, concurrent, found, Flagger(id, resolved, e), Grower(e));
  }

  /** The two changes keep roots and dates, and are the same but for the thread of the comment. */
  lemma FlagsApart(parent: Parents, list: Threads, id: Id, resolved: bool, e: Option<Entry>)
    requires ListOk(parent, list)
    ensures forall t | t in list :: Flagger(id, resolved, e)(t).root.id == t.root.id == Grower(e)(t).root.id
                                    && Grower(e)(t).root.createdAt == t.root.createdAt
    ensures forall t | t in list && FindThread(list, id) != Some(t) :: !Mentions(t, id) && Flagger(id, resolved, e)(t) == Grower(e)(t)
  {
    forall t | t in list
      ensures Flagger(id, resolved, e)(t).root.id == t.root.id == Grower(e)(t).root.id
      ensures Grower(e)(t).root.createdAt == t.root.createdAt
      ensures FindThread(list, id) != Some(t) ==> !Mentions(t, id) && Flagger(id, resolved, e)(t) == Grower(e)(t)
    {
      FlaggerFacts(t, id, resolved, e);
      if FindThread(list, id) != Some(t) {
        NotFound(parent, list, id, t);
      }
    }
  }

  lemma FlaggedBack(list: Threads, id: Id, concurrent: Option<Threads>, found: Option<Thread>, f: Thread -> Thread, g: Thread -> Thread)
    requires DistinctRoots(list) && Sorted(list, Newer) && (found.Some? ==> found.value in list)
    requires forall t | t in list :: f(t).root.id == t.root.id == g(t).root.id && g(t).root.createdAt == t.root.createdAt
    requires forall t | t in list && found != Some(t) :: !Mentions(t, id) && f(t) == g(t)
    requires found.Some? ==> RestoreFlags(f(found.value), id, found.value) == g(found.value)
    ensures RestoreThread(Map(list, f), id, found, concurrent) == Map(list, g) <==> found.Some? ==> FirstOfItsAge(list, found.value)
  {
    match found
    case None =>
      forall t | t in list ensures t.root.id != id {
        assert !Mentions(t, id);
      }
      NothingToRestore(list, id, f, g, concurrent);
    case Some(t) => RestoreMapped(list, t, id, f, g, concurrent);
  }

  lemma NotFound(parent: Parents, list: Threads, id: Id, t: Thread)
    requires ListOk(parent, list) && t in list && FindThread(list, id) != Some(t)
    ensures !Mentions(t, id)
  {
    if Mentions(t, id) {
      MentionedOnce(parent, list, t, FindThread(list, id).value, id);
    }
  }

  lemma NothingToRestore(list: Threads, id: Id, f: Thread -> Thread, g: Thread -> Thread, concurrent: Option<Threads>)
    requires forall t | t in list :: f(t) == g(t) && g(t).root.id == t.root.id != id
    ensures RestoreThread(Map(list, f), id, None, concurrent) == Map(list, g)
  {
    var changed := Map(list, f);
    assert changed == Map(list, g) by {
      assert forall i | 0 <= i < |list| :: list[i] in list;
    }
    forall t | t in changed ensures t.root.id != id {
      var i :| 0 <= i < |changed| && changed[i] == t;
      assert list[i] in list;
    }
    FilterAll(changed, (t: Thread) => t.root.id != id);
  }

  // --- The list of unresolved threads -----------------------------------------------------------

  /** Taking a thread out leaves the others as they are. */
  lemma DroppedFlags(parent: Parents, list: Threads, t: Thread)
    requires ListOk(parent, list) && t in list
    ensures DropRoot(WithResolved(list, t.root.id, true), t.root.id) == DropRoot(list, t.root.id)
  {
    var id := t.root.id;
    forall x | x in list
      ensures Flagger(id, true, None)(x).root.id == x.root.id == Grower(None)(x).root.id
      ensures x.root.id != id ==> Flagger(id, true, None)(x) == Grower(None)(x)
    {
      FlaggerFacts(x, id, true, None);
      if Mentions(x, id) {
        MentionedOnce(parent, list, x, t, id);
      }
    }
    DropRootOfMap(list, Flagger(id, true, None), Grower(None), id);
    FlagGrowMap(list, id, true, None);
    GrowNothing(WithResolved(list, id, true));
    GrowNothing(list);
  }

  lemma DroppedGrowth(list: Threads, id: Id, e: Option<Entry>)
    ensures GrowAll(DropRoot(list, id), e) == DropRoot(GrowAll(list, e), id)
  {
    FlagGrowMap(list, id, true, e);
    DropRootOfMap(list, Grower(e), Grower(e), id);
  }

  /** The list that is left has no such root, and dropping it again changes nothing. */
  lemma NoRootLeft(list: Threads, id: Id)
    ensures FindRoot(DropRoot(list, id), id) == None
    ensures DropRoot(DropRoot(list, id), id) == DropRoot(list, id)
  {
    RootIndexNone(DropRoot(list, id), id);
    FilterAll(DropRoot(list, id), (t: Thread) => t.root.id != id);
  }

  /** The rollback of a thread that was taken out. */
  lemma RestoreDropped(list: Threads, t: Thread, id: Id, concurrent: Option<Threads>, now: Option<Thread>)
    requires id == t.root.id
    requires now == if concurrent.Some? then FindRoot(concurrent.value, id) else None
    ensures RestoreThread(DropRoot(list, id), id, Some(t), concurrent)
            == Sort([if now.Some? then RestoreFlags(now.value, id, t) else t] + DropRoot(list, id), Newer)
  {
    NoRootLeft(list, id);
  }

  /** What the other list shows of a root that was flagged and whose thread has grown. */
  function SeenElsewhere(other: Option<Thread>, e: Option<Entry>): Option<Thread> {
    if other.Some? then Some(Grow(FlagThread(other.value, other.value.root.id, true), e)) else None
  }

  /**
   * The rollback of a root that was taken out restores its thread from its state in the other list. If that list lacks
   * it, the thread comes back as it was before the change, without what was added since.
   */
  lemma DropThenRestore(parent: Parents, list: Threads, t: Thread, e: Option<Entry>, concurrent: Option<Threads>, other: Option<Thread>)
    requires ListOk(parent, list) && Sorted(list, Newer) && t in list
    requires other.Some? ==> other.value.root.id == t.root.id
    requires SeenElsewhere(other, e) == if concurrent.Some? then FindRoot(concurrent.value, t.root.id) else None
    ensures RestoreThread(DropRoot(GrowAll(list, e), t.root.id), t.root.id, Some(t), concurrent) == GrowAll(list, e)
            <==> (if other.Some? then SameButFlags(other.value, t) else !RepliesTo(e, t.root.id)) && FirstOfItsAge(list, t)
  {
    var id, now := t.root.id, SeenElsewhere(other, e);
    RestoreDropped(GrowAll(list, e), t, id, concurrent, now);
    PutBackOnly(parent, list, t, e, if now.Some? then RestoreFlags(now.value, id, t) else t);
    if other.Some? {
      RootFlagsRestored(other.value, t, true, e);
    } else {
      Grows(t, e);
    }
  }

  predicate RepliesTo(e: Option<Entry>, id: Id) {
    e.Some? && e.value.parentId == Some(id)
  }

  lemma Grows(t: Thread, e: Option<Entry>)
    ensures Grow(t, e) == t <==> !RepliesTo(e, t.root.id)
  {
    if RepliesTo(e, t.root.id) {
      assert |Grow(t, e).replies| == |t.replies| + 1;
    }
  }

  lemma {:induction false} FindFlagged(list: Threads, id: Id, resolved: bool, e: Option<Entry>)
    ensures FindRoot(GrowAll(WithResolved(list, id, resolved), e), id)
            == match FindRoot(list, id) case None => None case Some(t) => Some(Grow(FlagThread(t, id, resolved), e))
  {
    FlagGrowMap(list, id, resolved, e);
    forall x ensures Flagger(id, resolved, e)(x).root.id == x.root.id {
      FlaggerFacts(x, id, resolved, e);
    }
    FindInMap(list, id, Flagger(id, resolved, e));
  }

  lemma {:induction false} FindInMap(list: Threads, id: Id, f: Thread -> Thread)
    requires forall x :: f(x).root.id == x.root.id
    ensures RootIndex(Map(list, f), id) == RootIndex(list, id)
  {
    if list != [] {
      assert Map(list, f)[1..] == Map(list[1..], f);
      FindInMap(list[1..], id, f);
    }
  }

  /** Sorting in a thread under a root of the list gives the list only if it is the thread of that root. */
  lemma OnlyItself(list: Threads, t: Thread, restored: Thread)
    requires DistinctRoots(list) && t in list && restored.root.id == t.root.id && restored != t
    ensures Sort([restored] + DropRoot(list, t.root.id), Newer) != list
  {
    var shuffled := [restored] + DropRoot(list, t.root.id);
    if Sort(shuffled, Newer) == list {
      assert restored in shuffled;
      SameElements(shuffled, list, restored);
      FindRootFinds(list, restored);
      FindRootFinds(list, t);
    }
  }

  /** Putting back exactly the thread that was there, first of its age, restores the list; anything else does not. */
  lemma PutBackOnly(parent: Parents, list: Threads, t: Thread, e: Option<Entry>, restored: Thread)
    requires ListOk(parent, list) && Sorted(list, Newer) && t in list && restored.root.id == t.root.id
    ensures Sort([restored] + DropRoot(GrowAll(list, e), t.root.id), Newer) == GrowAll(list, e)
            <==> restored == Grow(t, e) && FirstOfItsAge(list, t)
  {
    var grown := GrowAll(list, e);
    GrownHas(list, t, e);
    GrownOrdered(list, e);
    if restored == Grow(t, e) {
      PutBack(grown, Grow(t, e));
    } else {
      OnlyItself(grown, Grow(t, e), restored);
    }
  }

  lemma GrownHas(list: Threads, t: Thread, e: Option<Entry>)
    requires DistinctRoots(list) && t in list
    ensures Grow(t, e) in GrowAll(list, e) && Grow(t, e).root.id == t.root.id
    ensures FirstOfItsAge(GrowAll(list, e), Grow(t, e)) <==> FirstOfItsAge(list, t)
  {
    assert GrowAll(list, e) == Map(list, Grower(e));
    InMap(list, t, Grower(e));
    FirstInMap(list, t, Grower(e));
  }

  lemma FlagsNothing(list: Threads, id: Id, resolved: bool)
    requires !Listed(list, id)
    ensures WithResolved(list, id, resolved) == list && FindRoot(list, id) == None
  {
    forall t | t in list ensures FlagThread(t, id, resolved) == t && t.root.id != id {
      assert !Mentions(t, id);
      FlagElsewhere(t, id, resolved);
    }
    assert forall i | 0 <= i < |list| :: list[i] in list;
    RootIndexNone(list, id);
  }

  /** Reopening a thread that only the other list has brings it in; the rollback takes it out again. */
  lemma ReopenThenRestore(list: Threads, all: Option<Threads>, id: Id, e: Option<Entry>, concurrent: Option<Threads>)
    requires Sorted(list, Newer) && !Listed(list, id)
    ensures RestoreThread(GrowAll(WithUnresolved(list, id, false, all), e), id, None, concurrent) == GrowAll(list, e)
  {
    FlagsNothing(list, id, false);
    var reopened := if all.Some? then FindRoot(all.value, id) else None;
    DroppedGrowth(WithUnresolved(list, id, false, all), id, e);
    forall t | t in list ensures t.root.id != id {
      assert !Mentions(t, id);
    }
    if reopened.Some? {
      TakeOut(list, Thread(Flagged(reopened.value.root, false), reopened.value.replies));
    } else {
      FilterAll(list, (t: Thread) => t.root.id != id);
    }
  }

  // --- Both lists -------------------------------------------------------------------------------------

  /** Both lists are well formed and ordered by age, newest first. */
  ghost predicate CachesOk(parent: Parents, c: Caches) {
    && (c.open.Some? ==> ListOk(parent, c.open.value) && Sorted(c.open.value, Newer))
    && (c.all.Some? ==> ListOk(parent, c.all.value) && Sorted(c.all.value, Newer))
  }

  predicate Leads(data: Option<Threads>, id: Id) {
    data.Some? ==> LeadsItsAge(data.value, id)
  }

  /** The change takes a thread out of the unresolved list. */
  predicate TakesOut(c: Caches, id: Id, resolved: bool) {
    resolved && c.open.Some? && FindRoot(c.open.value, id).Some?
  }

  /** The other list has the thread as well. */
  predicate AlsoInAll(c: Caches, id: Id) {
    c.all.Some? && FindRoot(c.all.value, id).Some?
  }

  /** The two lists show the same thread, but for its resolution. */
  predicate Agree(c: Caches, id: Id)
    requires c.open.Some? && FindRoot(c.open.value, id).Some? && AlsoInAll(c, id)
  {
    SameButFlags(FindRoot(c.all.value, id).value, FindRoot(c.open.value, id).value)
  }

  /**
   * What was taken out comes back: the other list shows the same thread, or, if it lacks the thread, no reply to it was
   * added in between.
   */
  predicate ComesBack(c: Caches, id: Id, resolved: bool, e: Option<Entry>) {
    TakesOut(c, id, resolved) ==> if AlsoInAll(c, id) then Agree(c, id) else !RepliesTo(e, id)
  }

  function GrowBoth(c: Caches, e: Option<Entry>): Caches {
    Caches(Update(c.open, (list: Threads) => GrowAll(list, e)), Update(c.all, (list: Threads) => GrowAll(list, e)))
  }

  /** After the change and the growth, this is what the rollback of the unresolved list sees. */
  lemma TakenOut(parent: Parents, c: Caches, id: Id, e: Option<Entry>)
    requires CachesOk(parent, c) && TakesOut(c, id, true)
    ensures var other := if c.all.Some? then FindRoot(c.all.value, id) else None;
            var now := GrowBoth(Resolve(c, id, true), e);
            && now.open == Some(DropRoot(GrowAll(c.open.value, e), id))
            && SeenElsewhere(other, e) == (if now.all.Some? then FindRoot(now.all.value, id) else None)
            && Remember(c, id).open == FindRoot(c.open.value, id)
  {
    var list := c.open.value;
    var t := FindRoot(list, id).value;
    assert t in list && Mentions(t, id);
    MentionedOnce(parent, list, t, FindThread(list, id).value, id);
    DroppedFlags(parent, list, t);
    DroppedGrowth(list, id, e);
    if c.all.Some? {
      FindFlagged(c.all.value, id, true, e);
    }
  }

  /** The unresolved list after change, growth and rollback. */
  function OpenAfterRollback(c: Caches, id: Id, resolved: bool, e: Option<Entry>): Option<Threads> {
    RollBack(GrowBoth(Resolve(c, id, resolved), e), id, Remember(c, id)).open
  }

  lemma OpenRollback(c: Caches, id: Id, before: Remembered, open: Threads)
    requires c.open == Some(open)
    ensures RollBack(c, id, before).open == Some(RestoreThread(open, id, before.open, c.all))
  {
  }

  lemma TakenOutRestored(parent: Parents, c: Caches, id: Id, e: Option<Entry>)
    requires CachesOk(parent, c) && TakesOut(c, id, true) && (e.Some? ==> e.value.id != id)
    ensures OpenAfterRollback(c, id, true, e) == GrowBoth(c, e).open <==> ComesBack(c, id, true, e) && Leads(c.open, id)
  {
    var list, now := c.open.value, GrowBoth(Resolve(c, id, true), e);
    var other := if c.all.Some? then FindRoot(c.all.value, id) else None;
    TakenOut(parent, c, id, e);
    OpenRollback(now, id, Remember(c, id), DropRoot(GrowAll(list, e), id));
    RootIndexed(list, id);
    DropThenRestore(parent, list, FindRoot(list, id).value, e, now.all, other);
    if other.Some? {
      RootIndexed(c.all.value, id);
    }
  }

  lemma RootIndexed(list: Threads, id: Id)
    requires FindRoot(list, id).Some?
    ensures FindRoot(list, id).value in list && FindRoot(list, id).value.root.id == id
  {
  }

  lemma FlaggedRestored(parent: Parents, c: Caches, id: Id, resolved: bool, e: Option<Entry>)
    requires CachesOk(parent, c) && c.open.Some? && (e.Some? ==> e.value.id != id) && !TakesOut(c, id, resolved)
    ensures OpenAfterRollback(c, id, resolved, e) == GrowBoth(c, e).open <==> Leads(c.open, id)
  {
    var list, now := c.open.value, GrowBoth(Resolve(c, id, resolved), e);
    if FindThread(list, id).None? && !resolved {
      ReopenThenRestore(list, c.all, id, e, now.all);
    } else {
      StaysPut(parent, c, id, resolved);
      FlagThenRestore(parent, list, id, resolved, e, now.all);
    }
  }

  lemma OpenListRestored(parent: Parents, c: Caches, id: Id, resolved: bool, e: Option<Entry>)
    requires CachesOk(parent, c) && c.open.Some? && (e.Some? ==> e.value.id != id)
    ensures OpenAfterRollback(c, id, resolved, e) == GrowBoth(c, e).open <==> ComesBack(c, id, resolved, e) && Leads(c.open, id)
  {
    if TakesOut(c, id, resolved) {
      TakenOutRestored(parent, c, id, e);
    } else {
      FlaggedRestored(parent, c, id, resolved, e);
    }
  }

  lemma ReplyIsNoRoot(parent: Parents, list: Threads, t: Thread, other: Threads, id: Id)
    requires ListOk(parent, list) && ListOk(parent, other) && t in list && HasReply(t, id)
    ensures FindRoot(other, id) == None
  {
    assert ThreadOk(parent, t) && parent(id).Some?;
    forall x | x in other ensures x.root.id != id {
      assert ThreadOk(parent, x);
    }
    RootIndexNone(other, id);
  }

  /** Whatever is not taken out or brought in is only flagged. */
  lemma StaysPut(parent: Parents, c: Caches, id: Id, resolved: bool)
    requires CachesOk(parent, c) && c.open.Some? && !TakesOut(c, id, resolved)
    requires FindThread(c.open.value, id).None? ==> resolved
    ensures WithUnresolved(c.open.value, id, resolved, c.all) == WithResolved(c.open.value, id, resolved)
  {
    var list := c.open.value;
    var flagged := WithResolved(list, id, resolved);
    if resolved {
      forall t | t in flagged ensures t.root.id != id {
        var i :| 0 <= i < |flagged| && flagged[i] == t;
        assert list[i] in list && RootIndex(list, id) < 0;
      }
      FilterAll(flagged, (t: Thread) => t.root.id != id);
    } else {
      var t := FindThread(list, id).value;
      if t.root.id == id {
        FindRootFinds(list, t);
        FindFlagged(list, id, resolved, None);
        GrowNothing(flagged);
      } else if c.all.Some? {
        ReplyIsNoRoot(parent, list, t, c.all.value, id);
      }
    }
  }

  /**
   * A rejected resolve or reopen, of a root or a reply: both lists come back exactly as they were if and only if the
   * thread is the first of its age in each list that has it, and a root taken out of the unresolved list shows the same
   * thread in the other list, if it is there.
   */
  lemma RollbackRestores(parent: Parents, c: Caches, id: Id, resolved: bool)
    requires CachesOk(parent, c)
    ensures RollBack(Resolve(c, id, resolved), id, Remember(c, id)) == c
            <==> (TakesOut(c, id, resolved) && AlsoInAll(c, id) ==> Agree(c, id)) && Leads(c.open, id) && Leads(c.all, id)
  {
    var after := Resolve(c, id, resolved);
    assert GrowBoth(after, None) == after && GrowBoth(c, None) == c by {
      GrowBothNothing(after);
      GrowBothNothing(c);
    }
    if c.open.Some? {
      OpenListRestored(parent, c, id, resolved, None);
    }
    if c.all.Some? {
      FlagThenRestore(parent, c.all.value, id, resolved, None, after.open);
      GrowNothing(c.all.value);
      GrowNothing(WithResolved(c.all.value, id, resolved));
    }
  }

  lemma GrowBothNothing(c: Caches)
    ensures GrowBoth(c, None) == c
  {
    if c.open.Some? {
      GrowNothing(c.open.value);
    }
    if c.all.Some? {
      GrowNothing(c.all.value);
    }
  }

  /**
   * A reply added between the change and its rejection survives the rollback in both lists, and is all that does, if and
   * only if what was taken out comes back and the thread is the first of its age in each list that has it.
   */
  lemma ReplySurvivesRollback(parent: Parents, c: Caches, id: Id, resolved: bool, e: Entry)
    requires CachesOk(parent, c) && e.parentId.Some? && e.id != id
    ensures RollBack(AddBoth(Resolve(c, id, resolved), e), id, Remember(c, id)) == AddBoth(c, e)
            <==> ComesBack(c, id, resolved, Some(e)) && Leads(c.open, id) && Leads(c.all, id)
  {
    var after := Resolve(c, id, resolved);
    GrowBothIsAdd(after, e);
    GrowBothIsAdd(c, e);
    if c.open.Some? {
      OpenListRestored(parent, c, id, resolved, Some(e));
    }
    if c.all.Some? {
      FlagThenRestore(parent, c.all.value, id, resolved, Some(e), GrowBoth(after, Some(e)).open);
    }
  }

  /**
   * With only the unresolved list loaded, the reply is lost: the rollback finds the thread nowhere, and puts back the
   * one from before the reply.
   */
  lemma ReplyLostInRollback(parent: Parents, t: Thread, e: Entry)
    requires ThreadOk(parent, t) && e.parentId == Some(t.root.id) && e.id != t.root.id
    ensures var c, id := Caches(Some([t]), None), t.root.id;
            && RollBack(AddBoth(Resolve(c, id, true), e), id, Remember(c, id)) == c
            && AddBoth(c, e).open == Some([WithReply(t, e)])
  {
    MarkedAlone(t);
    RolledBackAlone(t);
    assert AddOptimistic([], e) == [];
    assert AddOptimistic([t], e) == [WithReply(t, e)];
  }

  /** Resolving the root of the only thread leaves an empty list. */
  lemma MarkedAlone(t: Thread)
    ensures Resolve(Caches(Some([t]), None), t.root.id, true) == Caches(Some([]), None)
    ensures Remember(Caches(Some([t]), None), t.root.id) == Remembered(Some(t), None)
  {
    var flagged := FlagThread(t, t.root.id, true);
    assert WithResolved([t], t.root.id, true) == [flagged];
    assert [flagged][1..] == [];
  }

  /** From an empty list the rollback puts back the thread that is remembered. */
  lemma RolledBackAlone(t: Thread)
    ensures RollBack(Caches(Some([]), None), t.root.id, Remembered(Some(t), None)) == Caches(Some([t]), None)
  {
    assert [t] + [] == [t] && [t][1..] == [];
  }

  lemma GrowBothIsAdd(c: Caches, e: Entry)
    requires e.parentId.Some?
    ensures GrowBoth(c, Some(e)) == AddBoth(c, e)
  {
    if c.open.Some? {
      GrowIsAdd(c.open.value, e);
    }
    if c.all.Some? {
      GrowIsAdd(c.all.value, e);
    }
  }
}
