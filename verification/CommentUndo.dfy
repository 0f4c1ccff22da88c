/**
 * An add that fails leaves no trace, whatever happened to the list in between
 * (live/src/hooks/use-comments.ts, `removeOptimisticComment` after the other list operations).
 */
module CommentUndo {
  import opened Wrappers
  import opened Sorting
  import opened Comments
  import opened CommentResolve

  // --- Removing a comment, as a filter and a map -------------------------------------------

  function Cleared(id: Id): Thread -> Thread {
    (t: Thread) => WithoutReply(t, id)
  }

  lemma RemoveIs(list: Threads, id: Id)
    ensures RemoveOptimistic(list, id) == Map(DropRoot(list, id), Cleared(id))
  {
    var r, m := RemoveOptimistic(list, id), Map(DropRoot(list, id), Cleared(id));
    assert forall i | 0 <= i < |r| :: r[i] == m[i];
  }

  lemma RemoveCons(t: Thread, rest: Threads, id: Id)
    ensures RemoveOptimistic([t] + rest, id)
            == if t.root.id == id then RemoveOptimistic(rest, id) else [WithoutReply(t, id)] + RemoveOptimistic(rest, id)
  {
    RemoveIs([t] + rest, id);
    RemoveIs(rest, id);
    DropRootCons(t, rest, id);
    if t.root.id != id {
      MapCons(t, DropRoot(rest, id), Cleared(id));
    }
  }

  lemma RemoveNone(id: Id)
    ensures RemoveOptimistic([], id) == []
  {
  }

  lemma {:induction false} RemoveConcat(x: Threads, y: Threads, id: Id)
    ensures RemoveOptimistic(x + y, id) == RemoveOptimistic(x, id) + RemoveOptimistic(y, id)
    decreases |x|
  {
    if x == [] {
      assert x + y == y;
      RemoveNone(id);
      assert [] + RemoveOptimistic(y, id) == RemoveOptimistic(y, id);
    } else {
      var t, rest := x[0], x[1..];
      assert x == [t] + rest;
      Regroup([t], rest, y);
      RemoveConcat(rest, y, id);
      RemoveCons(t, rest + y, id);
      RemoveCons(t, rest, id);
      Regroup([WithoutReply(t, id)], RemoveOptimistic(rest, id), RemoveOptimistic(y, id));
    }
  }

  /** Changing threads one by one and then removing is removing and then changing what is left. */
  lemma {:induction false} RemoveMap(list: Threads, id: Id, f: Thread -> Thread, g: Thread -> Thread)
    requires forall t | t in list :: f(t).root.id == id <==> t.root.id == id
    requires forall t | t in list && t.root.id != id :: WithoutReply(f(t), id) == g(WithoutReply(t, id))
    ensures RemoveOptimistic(Map(list, f), id) == Map(RemoveOptimistic(list, id), g)
    decreases |list|
  {
    if list == [] {
      RemoveNone(id);
    } else {
      var t, rest := list[0], list[1..];
      assert list == [t] + rest && t in list;
      RemoveMap(rest, id, f, g);
      MapCons(t, rest, f);
      RemoveCons(f(t), Map(rest, f), id);
      RemoveCons(t, rest, id);
      if t.root.id != id {
        MapCons(WithoutReply(t, id), RemoveOptimistic(rest, id), g);
      }
    }
  }

  // --- One thread ------------------------------------------------------------------------------

  predicate Counted(t: Thread) {
    t.root.replyCount == |t.replies|
  }

  function Others(replies: seq<Entry>, id: Id): seq<Entry> {
    Filter(replies, (r: Entry) => r.id != id)
  }

  lemma OthersHas(replies: seq<Entry>, id: Id, x: Id)
    requires x != id
    ensures HasId(Others(replies, id), x) <==> HasId(replies, x)
  {
    if r :| r in replies && r.id == x {
      assert r in Others(replies, id);
    }
  }

  lemma ReplyCommutes(t: Thread, e: Entry, id: Id)
    requires Counted(t) && e.id != id
    ensures WithoutReply(WithReply(t, e), id) == WithReply(WithoutReply(t, id), e) && Counted(WithReply(t, e))
  {
    OneMore(t.replies, e, id);
    if HasReply(t, id) {
      var r :| r in t.replies && r.id == id;
      assert |t.replies| >= 1;
    }
  }

  lemma OneMore(replies: seq<Entry>, e: Entry, id: Id)
    requires e.id != id
    ensures Others(replies + [e], id) == Others(replies, id) + [e]
    ensures HasId(replies + [e], id) <==> HasId(replies, id)
  {
    FilterConcat(replies, [e], (r: Entry) => r.id != id);
    OthersCons(e, [], id);
    assert [e] + [] == [e];
    if r :| r in replies && r.id == id {
      assert r in replies + [e];
    }
  }

  lemma {:induction false} OthersTwice(replies: seq<Entry>, a: Id, b: Id)
    ensures Others(Others(replies, a), b) == Others(Others(replies, b), a)
  {
    if replies != [] {
      OthersTwice(replies[1..], a, b);
      OthersCons(replies[0], Others(replies[1..], a), b);
      OthersCons(replies[0], Others(replies[1..], b), a);
    }
  }

  lemma OthersCons(r: Entry, rest: seq<Entry>, id: Id)
    ensures Others([r] + rest, id) == if r.id == id then Others(rest, id) else [r] + Others(rest, id)
  {
    assert ([r] + rest)[1..] == rest;
  }

  lemma ClearTwice(t: Thread, a: Id, b: Id)
    requires a != b
    ensures WithoutReply(WithoutReply(t, a), b) == WithoutReply(WithoutReply(t, b), a)
  {
    OthersTwice(t.replies, a, b);
    OthersHas(t.replies, a, b);
    OthersHas(t.replies, b, a);
  }

  lemma {:induction false} OthersMap(replies: seq<Entry>, id: Id, f: Entry -> Entry)
    requires forall r | r in replies :: f(r).id == id <==> r.id == id
    ensures Others(Map(replies, f), id) == Map(Others(replies, id), f)
  {
    if replies != [] {
      var r, rest := replies[0], replies[1..];
      assert Map(replies, f) == [f(r)] + Map(rest, f);
      assert r in replies;
      OthersMap(rest, id, f);
      OthersCons(f(r), Map(rest, f), id);
      assert Map([r] + Others(rest, id), f) == [f(r)] + Map(Others(rest, id), f);
    }
  }

  lemma SubstituteCommutes(t: Thread, a: Id, saved: Entry, id: Id)
    requires a != id && saved.id != id && t.root.id != id && (t.root.id == a ==> t.replies == [])
    ensures WithoutReply(Substitute(t, a, saved), id) == Substitute(WithoutReply(t, id), a, saved)
  {
    var f := (r: Entry) => if r.id == a then saved else r;
    if t.root.id != a {
      OthersMap(t.replies, id, f);
      var r := Substitute(t, a, saved);
      assert HasReply(r, id) <==> HasReply(t, id) by {
        if x :| x in t.replies && x.id == id {
          var i :| 0 <= i < |t.replies| && t.replies[i] == x;
          assert r.replies[i] == x && x in r.replies;
        }
        if x :| x in r.replies && x.id == id {
          var i :| 0 <= i < |r.replies| && r.replies[i] == x;
          assert t.replies[i] == x;
        }
      }
    }
  }

  lemma {:induction false} AppendCommutes(t: Thread, replies: seq<Entry>, id: Id)
    requires Counted(t)
    ensures WithoutReply(AppendMissing(t, replies), id) == AppendMissing(WithoutReply(t, id), Others(replies, id))
    decreases |replies|
  {
    if replies != [] {
      var r, rest := replies[0], replies[1..];
      var next := if HasReply(t, r.id) then t else WithReply(t, r);
      assert [r] + rest == replies;
      OthersCons(r, rest, id);
      AppendCommutes(next, rest, id);
      if r.id == id {
        if !HasReply(t, id) {
          ReplyUndone(t, r);
        }
      } else {
        OthersHas(t.replies, id, r.id);
        ReplyCommutes(t, r, id);
        assert ([r] + Others(rest, id))[1..] == Others(rest, id);
      }
    }
  }

  // --- The operations on a list ------------------------------------------------------------------

  lemma AddCommutes(parent: Parents, list: Threads, e: Entry, id: Id)
    requires ListOk(parent, list) && e.id != id
    ensures RemoveOptimistic(AddOptimistic(list, e), id) == AddOptimistic(RemoveOptimistic(list, id), e)
  {
    match e.parentId
    case None =>
      RemoveCons(Thread(e, []), list, id);
    case Some(p) =>
      var f := (t: Thread) => if t.root.id == p then WithReply(t, e) else t;
      forall t | t in list && t.root.id != id ensures WithoutReply(f(t), id) == f(WithoutReply(t, id)) {
        assert ThreadOk(parent, t);
        ReplyCommutes(t, e, id);
      }
      RemoveMap(list, id, f, f);
  }

  lemma {:induction false} RemovesCommute(list: Threads, a: Id, b: Id)
    requires a != b
    ensures RemoveOptimistic(RemoveOptimistic(list, a), b) == RemoveOptimistic(RemoveOptimistic(list, b), a)
    decreases |list|
  {
    if list == [] {
      RemoveNone(a);
      RemoveNone(b);
    } else {
      var t, rest := list[0], list[1..];
      assert list == [t] + rest;
      RemovesCommute(rest, a, b);
      RemoveCons(t, rest, a);
      RemoveCons(t, rest, b);
      RemoveCons(WithoutReply(t, a), RemoveOptimistic(rest, a), b);
      RemoveCons(WithoutReply(t, b), RemoveOptimistic(rest, b), a);
      ClearTwice(t, a, b);
    }
  }

  lemma ReplaceCommutes(parent: Parents, list: Threads, a: Id, saved: Entry, id: Id)
    requires ListOk(parent, list) && a.Optimistic? && id.Optimistic? && a != id && saved.id.Stored?
    ensures RemoveOptimistic(ReplaceOptimistic(list, a, saved), id) == ReplaceOptimistic(RemoveOptimistic(list, id), a, saved)
  {
    RemoveKeeps(parent, list, id);
    if Listed(list, saved.id) {
      RemovesCommute(list, a, id);
    } else {
      var f := (t: Thread) => Substitute(t, a, saved);
      forall t | t in list && t.root.id != id ensures WithoutReply(f(t), id) == f(WithoutReply(t, id)) {
        assert ThreadOk(parent, t);
        SubstituteCommutes(t, a, saved, id);
      }
      RemoveMap(list, id, f, f);
    }
  }

  // --- A refetch -----------------------------------------------------------------------------------

  /** A thread that the server lacks is put back for the sake of the comment alone. */
  predicate OnlyFor(server: Threads, t: Thread, id: Id) {
    HasId(PendingReplies(t), id) && Others(PendingReplies(t), id) == [] && !HasRoot(server, t.root.id)
  }

  predicate PutBackFor(server: Threads, list: Threads, id: Id) {
    exists t | t in list :: OnlyFor(server, t, id)
  }

  lemma {:induction false} PendingOthers(replies: seq<Entry>, id: Id)
    ensures Filter(Others(replies, id), (r: Entry) => r.id.Optimistic?) == Others(Filter(replies, (r: Entry) => r.id.Optimistic?), id)
  {
    var pending := (r: Entry) => r.id.Optimistic?;
    if replies != [] {
      var r, rest := replies[0], replies[1..];
      PendingOthers(rest, id);
      OthersCons(r, rest, id);
      assert [r] + rest == replies;
      OthersCons(r, Filter(rest, pending), id);
      assert ([r] + Others(rest, id))[1..] == Others(rest, id);
    }
  }

  lemma RootsLeft(list: Threads, id: Id, root: Id)
    requires root != id
    ensures HasRoot(RemoveOptimistic(list, id), root) <==> HasRoot(list, root)
  {
    var r, kept := RemoveOptimistic(list, id), DropRoot(list, id);
    RemoveIs(list, id);
    if t :| t in list && t.root.id == root {
      var i :| 0 <= i < |kept| && kept[i] == t;
      assert r[i] == WithoutReply(t, id) && r[i] in r;
    }
    if t :| t in r && t.root.id == root {
      var i :| 0 <= i < |r| && r[i] == t;
      assert kept[i] in list && kept[i].root.id == root;
    }
  }

  lemma RootIndexSome(list: Threads, root: Id)
    ensures RootIndex(list, root) >= 0 <==> HasRoot(list, root)
  {
    if RootIndex(list, root) >= 0 {
      assert list[RootIndex(list, root)] in list;
    }
  }

  function Growing(root: Id, replies: seq<Entry>): Thread -> Thread {
    (t: Thread) => if t.root.id == root then AppendMissing(t, replies) else t
  }

  /** Rewriting the thread of a root is a map. */
  lemma MergeIsMap(list: Threads, root: Id, replies: seq<Entry>)
    requires forall i, j | 0 <= i < j < |list| :: list[i].root.id != list[j].root.id
    requires RootIndex(list, root) >= 0
    ensures list[RootIndex(list, root) := AppendMissing(list[RootIndex(list, root)], replies)] == Map(list, Growing(root, replies))
  {
    var k := RootIndex(list, root);
    var r, m := list[k := AppendMissing(list[k], replies)], Map(list, Growing(root, replies));
    forall i | 0 <= i < |list| ensures r[i] == m[i] {
      if i != k {
        assert list[i].root.id != list[k].root.id;
      }
    }
  }

  lemma MergeIntoCommutes(parent: Parents, list: Threads, root: Id, replies: seq<Entry>, id: Id)
    requires ListOk(parent, list) && root != id
    ensures RemoveOptimistic(Map(list, Growing(root, replies)), id)
            == Map(RemoveOptimistic(list, id), Growing(root, Others(replies, id)))
  {
    var f, g := Growing(root, replies), Growing(root, Others(replies, id));
    forall t | t in list
      ensures f(t).root.id == t.root.id && WithoutReply(f(t), id) == g(WithoutReply(t, id))
    {
      assert ThreadOk(parent, t);
      SameRoot(t, replies);
      AppendCommutes(t, replies, id);
    }
    RemoveMap(list, id, f, g);
  }

  lemma GrowsByNothing(list: Threads, root: Id)
    ensures Map(list, Growing(root, [])) == list
  {
    var m := Map(list, Growing(root, []));
    assert forall i | 0 <= i < |list| :: m[i] == list[i];
  }

  /** The thread of a pending root goes as a whole. */
  lemma MergeOwn(parent: Parents, list: Threads, t: Thread, id: Id)
    requires ThreadOk(parent, t) && id.Optimistic? && t.root.id == id
    ensures RemoveOptimistic(MergeThread(list, t), id) == RemoveOptimistic(list, id)
  {
    PendingOfThread(parent, t);
    RemoveCons(t, list, id);
  }

  lemma PendingLeft(t: Thread, id: Id)
    ensures PendingReplies(WithoutReply(t, id)) == Others(PendingReplies(t), id)
    ensures !HasId(PendingReplies(t), id) ==> Others(PendingReplies(t), id) == PendingReplies(t)
  {
    PendingOthers(t.replies, id);
    if !HasId(PendingReplies(t), id) {
      FilterAll(PendingReplies(t), (r: Entry) => r.id != id);
    }
  }

  lemma MergeFound(parent: Parents, list: Threads, t: Thread, id: Id, r: Threads, w: Thread)
    requires ListOk(parent, list) && ThreadOk(parent, t) && ListOk(parent, r) && t.root.id != id
    requires r == RemoveOptimistic(list, id) && w == WithoutReply(t, id) && HasRoot(list, t.root.id)
    ensures RemoveOptimistic(MergeThread(list, t), id) == MergeThread(r, w)
  {
    var root, pending := t.root.id, PendingReplies(t);
    PendingOfThread(parent, t);
    PendingLeft(t, id);
    RootsLeft(list, id, root);
    RootIndexSome(list, root);
    RootIndexSome(r, root);
    if pending != [] {
      MergeIsMap(list, root, pending);
      MergeIntoCommutes(parent, list, root, pending, id);
      if Others(pending, id) == [] {
        GrowsByNothing(r, root);
      } else {
        MergeIsMap(r, root, Others(pending, id));
      }
    }
  }

  lemma MergeNew(parent: Parents, list: Threads, t: Thread, id: Id, r: Threads, w: Thread)
    requires ThreadOk(parent, t) && t.root.id != id && !OnlyFor(list, t, id)
    requires r == RemoveOptimistic(list, id) && w == WithoutReply(t, id) && !HasRoot(list, t.root.id)
    ensures RemoveOptimistic(MergeThread(list, t), id) == MergeThread(r, w)
  {
    PendingOfThread(parent, t);
    PendingLeft(t, id);
    RootsLeft(list, id, t.root.id);
    RootIndexSome(list, t.root.id);
    RootIndexSome(r, t.root.id);
    if t.root.id.Optimistic? {
      RemoveCons(t, list, id);
    } else if PendingReplies(t) != [] {
      RemoveConcat(list, [t], id);
      RemoveAlone(t, id);
    }
  }

  lemma RemoveAlone(t: Thread, id: Id)
    requires t.root.id != id
    ensures RemoveOptimistic([t], id) == [WithoutReply(t, id)]
  {
    RemoveCons(t, [], id);
    RemoveNone(id);
    assert [t] + [] == [t];
  }

  lemma MergeThreadCommutes(parent: Parents, list: Threads, t: Thread, id: Id)
    requires ListOk(parent, list) && ThreadOk(parent, t) && id.Optimistic? && !OnlyFor(list, t, id)
    ensures RemoveOptimistic(MergeThread(list, t), id)
            == if t.root.id == id then RemoveOptimistic(list, id) else MergeThread(RemoveOptimistic(list, id), WithoutReply(t, id))
  {
    RemoveKeeps(parent, list, id);
    if t.root.id == id {
      MergeOwn(parent, list, t, id);
    } else if HasRoot(list, t.root.id) {
      MergeFound(parent, list, t, id, RemoveOptimistic(list, id), WithoutReply(t, id));
    } else {
      MergeNew(parent, list, t, id, RemoveOptimistic(list, id), WithoutReply(t, id));
    }
  }

  lemma {:induction false} MergeAllCommutes(parent: Parents, list: Threads, previous: Threads, id: Id)
    requires ListOk(parent, list) && ListOk(parent, previous) && id.Optimistic? && !PutBackFor(list, previous, id)
    ensures RemoveOptimistic(MergeAll(list, previous), id) == MergeAll(RemoveOptimistic(list, id), RemoveOptimistic(previous, id))
    decreases |previous|
  {
    if previous == [] {
      RemoveNone(id);
    } else {
      var t, rest, next := previous[0], previous[1..], MergeThread(list, previous[0]);
      assert previous == [t] + rest && t in previous;
      MergeThreadKeeps(parent, list, t);
      StillNotFor(list, t, rest, id);
      MergeAllCommutes(parent, next, rest, id);
      MergeThreadCommutes(parent, list, t, id);
      RemoveCons(t, rest, id);
      MergeAllNext(RemoveOptimistic(list, id), WithoutReply(t, id), RemoveOptimistic(rest, id));
    }
  }

  lemma MergeAllNext(list: Threads, t: Thread, rest: Threads)
    ensures MergeAll(list, [t] + rest) == MergeAll(MergeThread(list, t), rest)
  {
    assert ([t] + rest)[1..] == rest;
  }

  lemma StillNotFor(list: Threads, t: Thread, rest: Threads, id: Id)
    requires !PutBackFor(list, [t] + rest, id) && forall i, j | 0 <= i < j < |[t] + rest| :: ([t] + rest)[i].root.id != ([t] + rest)[j].root.id
    ensures !PutBackFor(MergeThread(list, t), rest, id)
  {
    var all := [t] + rest;
    forall x | x in rest ensures !OnlyFor(MergeThread(list, t), x, id) {
      var i :| 0 <= i < |rest| && rest[i] == x;
      assert all[0].root.id != all[i + 1].root.id && x in all;
      MergeThreadRoots(list, t, x.root.id);
    }
  }

  lemma SortCommutes(list: Threads, id: Id)
    ensures RemoveOptimistic(Sort(list, Newer), id) == Sort(RemoveOptimistic(list, id), Newer)
  {
    RemoveIs(list, id);
    RemoveIs(Sort(list, Newer), id);
    SortFilter(list, Newer, (t: Thread) => t.root.id != id);
    SortMap(DropRoot(list, id), Cleared(id), Newer, Newer);
  }

  lemma RemoveUnlisted(list: Threads, id: Id)
    requires (forall t | t in list :: Counted(t)) && !Listed(list, id)
    ensures RemoveOptimistic(list, id) == list
  {
    var r := RemoveOptimistic(list, id);
    forall t | t in list ensures t.root.id != id && WithoutReply(t, id) == t {
      assert !Mentions(t, id);
      FilterAll(t.replies, (e: Entry) => e.id != id);
    }
    FilterAll(list, (t: Thread) => t.root.id != id);
    assert forall i | 0 <= i < |list| :: list[i] in list && r[i] == list[i];
  }

  /**
   * Removing a pending comment after a refetch or before it makes no difference, unless the refetch puts a thread that
   * the server lacks back for the sake of this comment alone.
   */
  lemma RefetchCommutes(parent: Parents, previous: Threads, server: Threads, id: Id)
    requires SnapshotOk(parent, server) && ListOk(parent, previous) && id.Optimistic? && !PutBackFor(server, previous, id)
    ensures RemoveOptimistic(PreservePending(Some(previous), server), id)
            == PreservePending(Some(RemoveOptimistic(previous, id)), server)
  {
    ServerLacks(parent, server, id);
    MergeAllCommutes(parent, server, previous, id);
    SortCommutes(MergeAll(server, previous), id);
  }

  lemma ServerLacks(parent: Parents, server: Threads, id: Id)
    requires SnapshotOk(parent, server) && id.Optimistic?
    ensures !Listed(server, id) && RemoveOptimistic(server, id) == server
  {
    forall t | t in server ensures Counted(t) && !Mentions(t, id) {
      assert ThreadOk(parent, t);
    }
    RemoveUnlisted(server, id);
  }

  /** A thread left without its only pending reply is not put back. */
  lemma NotPutBack(parent: Parents, previous: Threads, server: Threads, t: Thread, id: Id)
    requires SnapshotOk(parent, server) && ListOk(parent, previous) && t in previous && OnlyFor(server, t, id) && t.root.id.Stored?
    ensures !Listed(PreservePending(Some(RemoveOptimistic(previous, id)), server), t.root.id)
  {
    var root, left := t.root.id, RemoveOptimistic(previous, id);
    assert ThreadOk(parent, t);
    RemoveKeeps(parent, previous, id);
    RefetchKeeps(parent, Some(left), server);
    forall x | x in server ensures !Mentions(x, root) {
      assert ThreadOk(parent, x);
    }
    forall x | x in left && Mentions(x, root) ensures !PutBackWhole(server, x) {
      assert ThreadOk(parent, x);
      ClearedFrom(previous, t, x, id);
      PendingLeft(t, id);
    }
  }

  lemma ClearedFrom(list: Threads, t: Thread, x: Thread, id: Id)
    requires (forall i, j | 0 <= i < j < |list| :: list[i].root.id != list[j].root.id) && t in list
    requires x in RemoveOptimistic(list, id) && x.root.id == t.root.id
    ensures x == WithoutReply(t, id)
  {
    var r, kept := RemoveOptimistic(list, id), DropRoot(list, id);
    RemoveIs(list, id);
    var i :| 0 <= i < |r| && r[i] == x;
    assert kept[i] in list && kept[i].root.id == t.root.id;
    FindRootFinds(list, kept[i]);
    FindRootFinds(list, t);
  }

  lemma PutBackIsSeen(parent: Parents, previous: Threads, server: Threads, t: Thread, id: Id)
    requires SnapshotOk(parent, server) && ListOk(parent, previous) && id.Optimistic? && t in previous && OnlyFor(server, t, id)
    ensures t.root.id.Stored?
    ensures Listed(RemoveOptimistic(PreservePending(Some(previous), server), id), t.root.id)
  {
    assert ThreadOk(parent, t);
    PendingOfThread(parent, t);
    RefetchKeeps(parent, Some(previous), server);
    assert Mentions(t, t.root.id) && PutBackWhole(server, t);
    assert Preserved(server, previous, t.root.id);
    RemoveKeeps(parent, PreservePending(Some(previous), server), id);
  }

  /** Exactly so: what the refetch put back for the sake of the comment alone stays behind when the comment goes. */
  lemma RefetchTraces(parent: Parents, previous: Threads, server: Threads, id: Id)
    requires SnapshotOk(parent, server) && ListOk(parent, previous) && id.Optimistic?
    ensures RemoveOptimistic(PreservePending(Some(previous), server), id)
            == PreservePending(Some(RemoveOptimistic(previous, id)), server)
            <==> !PutBackFor(server, previous, id)
  {
    if PutBackFor(server, previous, id) {
      var t :| t in previous && OnlyFor(server, t, id);
      PutBackIsSeen(parent, previous, server, t, id);
      NotPutBack(parent, previous, server, t, id);
    } else {
      RefetchCommutes(parent, previous, server, id);
    }
  }

  // --- Whole runs -------------------------------------------------------------------------------------

  function WithoutIt(data: Option<Threads>, id: Id): Option<Threads> {
    Update(data, (list: Threads) => RemoveOptimistic(list, id))
  }

  /** The step is a refetch that puts a thread back for the sake of the comment alone. */
  predicate LeavesTrace(s: State, step: Step, id: Id) {
    step.Refetch? && s.data.Some? && PutBackFor(step.server, s.data.value, id)
  }

  predicate NoTraces(s: State, steps: seq<Step>, id: Id)
    decreases |steps|
  {
    steps != [] ==> !LeavesTrace(s, steps[0], id) && NoTraces(Apply(s, steps[0]), steps[1..], id)
  }

  lemma StepCommutes(parent: Parents, s: State, o: State, step: Step, id: Id)
    requires Inv(parent, s) && Legal(parent, s, step) && id in s.used && !Settles(step, id) && !LeavesTrace(s, step, id)
    requires o.data == WithoutIt(s.data, id)
    ensures Apply(o, step).data == WithoutIt(Apply(s, step).data, id)
  {
    if s.data.Some? {
      var list := s.data.value;
      match step
      case Mutate(e) => AddCommutes(parent, list, e, id);
      case Refetch(server) => RefetchCommutes(parent, list, server, id);
      case Success(a, saved) => ReplaceCommutes(parent, list, a, saved, id);
      case Failure(a) => RemovesCommute(list, a, id);
    } else if step.Refetch? {
      ServerLacks(parent, step.server, id);
    }
  }

  lemma {:induction false} RunCommutes(parent: Parents, s: State, o: State, steps: seq<Step>, id: Id)
    requires Inv(parent, s) && AllLegal(parent, s, steps) && id in s.used && NoTraces(s, steps, id)
    requires (forall step | step in steps :: !Settles(step, id)) && o.data == WithoutIt(s.data, id)
    ensures RunAll(o, steps).data == WithoutIt(RunAll(s, steps).data, id)
    decreases |steps|
  {
    if steps != [] {
      assert steps[0] in steps;
      StepKeeps(parent, s, steps[0]);
      StepCommutes(parent, s, o, steps[0], id);
      RunCommutes(parent, Apply(s, steps[0]), Apply(o, steps[0]), steps[1..], id);
    }
  }

  /**
   * An add, any steps but its outcome, then its failure: the list is what the steps alone would have made it, as long
   * as no refetch in between puts a thread back for the sake of the added comment alone.
   */
  lemma FailedAddLeavesNoTrace(parent: Parents, s: State, e: Entry, steps: seq<Step>)
    requires Inv(parent, s) && Legal(parent, s, Mutate(e)) && AllLegal(parent, Apply(s, Mutate(e)), steps)
    requires (forall step | step in steps :: !Settles(step, e.id)) && NoTraces(Apply(s, Mutate(e)), steps, e.id)
    ensures Apply(RunAll(Apply(s, Mutate(e)), steps), Failure(e.id)).data == RunAll(s, steps).data
  {
    StepKeeps(parent, s, Mutate(e));
    if s.data.Some? {
      assert !Shown(s, e.id);
      FailureUndoesAdd(parent, s.data.value, e);
    }
    RunCommutes(parent, Apply(s, Mutate(e)), s, steps, e.id);
  }
}
