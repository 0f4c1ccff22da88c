/**
 * What resolving and reopening a comment, and rolling that back, change in the cached lists, comment by comment
 * (live/src/hooks/use-comments.ts, `withResolvedComment`, `withUnresolvedComment` and `restoreThread`).
 */
module CommentMarks {
  import opened Wrappers
  import opened Sorting
  import opened Comments
  import opened CommentResolve
  import opened CommentRuns

  // --- Marking -----------------------------------------------------------------------

  /** The comment with this id shows the new resolution; every other field, and every other comment, is as before. */
  predicate MarkedEntry(before: Entry, after: Entry, id: Id, resolved: bool) {
    && after.id == before.id && after.parentId == before.parentId
    && after.resolvedBy == before.resolvedBy && after.resolvedAt == before.resolvedAt
    && after.createdAt == before.createdAt && after.replyCount == before.replyCount && after.body == before.body
    && after.resolved == if before.id == id then resolved else before.resolved
  }

  predicate MarkedThread(before: Thread, after: Thread, id: Id, resolved: bool) {
    && MarkedEntry(before.root, after.root, id, resolved)
    && |after.replies| == |before.replies|
    && forall i | 0 <= i < |before.replies| :: MarkedEntry(before.replies[i], after.replies[i], id, resolved)
  }

  /** The same threads in the same order, but for the resolution of one comment. */
  predicate Marked(before: Threads, after: Threads, id: Id, resolved: bool) {
    |after| == |before| && forall i | 0 <= i < |before| :: MarkedThread(before[i], after[i], id, resolved)
  }

  lemma FlagMarks(parent: Parents, t: Thread, id: Id, resolved: bool)
    requires ThreadOk(parent, t)
    ensures MarkedThread(t, FlagThread(t, id, resolved), id, resolved)
  {
    forall i | 0 <= i < |t.replies| ensures t.replies[i].id == id ==> t.root.id != id {
      assert t.replies[i] in t.replies;
    }
  }

  lemma ListMarks(parent: Parents, list: Threads, id: Id, resolved: bool)
    requires ListOk(parent, list)
    ensures Marked(list, WithResolved(list, id, resolved), id, resolved)
  {
    forall i | 0 <= i < |list| ensures MarkedThread(list[i], WithResolved(list, id, resolved)[i], id, resolved) {
      assert list[i] in list;
      FlagMarks(parent, list[i], id, resolved);
    }
  }

  /** In the list of all comments, resolving or reopening changes just that. */
  lemma AllListMarked(parent: Parents, c: Caches, id: Id, resolved: bool)
    requires CacheOk(parent, c.all)
    ensures Resolve(c, id, resolved).all.Some? <==> c.all.Some?
    ensures c.all.Some? ==> Marked(c.all.value, Resolve(c, id, resolved).all.value, id, resolved)
  {
    if c.all.Some? {
      ListMarks(parent, c.all.value, id, resolved);
    }
  }

  // --- The list of unresolved threads ---------------------------------------------------------

  function Skip(list: Threads, k: nat): Threads
    requires k < |list|
  {
    list[..k] + list[k + 1..]
  }

  lemma DropFirst(t: Thread, rest: Threads)
    requires forall x | x in rest :: x.root.id != t.root.id
    ensures DropRoot([t] + rest, t.root.id) == rest
  {
    DropRootCons(t, rest, t.root.id);
    FilterAll(rest, (x: Thread) => x.root.id != t.root.id);
  }

  lemma SkipCons(t: Thread, rest: Threads, k: nat)
    requires k <= |rest|
    ensures Skip([t] + rest, k) == if k == 0 then rest else [t] + Skip(rest, k - 1)
  {
    var list := [t] + rest;
    assert list[k + 1..] == rest[k..];
    assert k > 0 ==> list[..k] == [t] + rest[..k - 1];
  }

  /** The roots of a list differ. */
  lemma RootsApart(t: Thread, rest: Threads)
    requires forall i, j | 0 <= i < j < |[t] + rest| :: ([t] + rest)[i].root.id != ([t] + rest)[j].root.id
    ensures forall x | x in rest :: x.root.id != t.root.id
    ensures forall i, j | 0 <= i < j < |rest| :: rest[i].root.id != rest[j].root.id
  {
    var list := [t] + rest;
    assert forall i | 0 <= i < |rest| :: rest[i] == list[i + 1];
    forall i | 0 <= i < |rest| ensures rest[i].root.id != t.root.id {
      assert list[0].root.id != list[i + 1].root.id;
    }
  }

  lemma {:induction false} DropAt(list: Threads, k: nat)
    requires k < |list| && forall i, j | 0 <= i < j < |list| :: list[i].root.id != list[j].root.id
    ensures DropRoot(list, list[k].root.id) == Skip(list, k)
    decreases |list|
  {
    var t, rest := list[0], list[1..];
    assert list == [t] + rest;
    RootsApart(t, rest);
    SkipCons(t, rest, k);
    if k == 0 {
      DropFirst(t, rest);
    } else {
      DropRootCons(t, rest, rest[k - 1].root.id);
      DropAt(rest, k - 1);
    }
  }

  /** A resolved root leaves the list; nothing else does. */
  lemma ResolvedRootLeaves(parent: Parents, list: Threads, id: Id, all: Option<Threads>, k: nat)
    requires ListOk(parent, list) && k < |list| && list[k].root.id == id
    ensures Marked(Skip(list, k), WithUnresolved(list, id, true, all), id, true)
    ensures forall t | t in WithUnresolved(list, id, true, all) :: t.root.id != id
  {
    var updated := WithResolved(list, id, true);
    MarkKeeps(parent, list, id, true);
    ListMarks(parent, list, id, true);
    DropAt(updated, k);
    forall i | 0 <= i < |Skip(list, k)| ensures MarkedThread(Skip(list, k)[i], Skip(updated, k)[i], id, true) {
      assert Skip(list, k)[i] == list[if i < k then i else i + 1] && Skip(updated, k)[i] == updated[if i < k then i else i + 1];
    }
  }

  /** A resolved comment that is no root of the list is only marked. */
  lemma ResolvedReplyStays(parent: Parents, list: Threads, id: Id, all: Option<Threads>)
    requires ListOk(parent, list) && !HasRoot(list, id)
    ensures Marked(list, WithUnresolved(list, id, true, all), id, true)
  {
    var updated := WithResolved(list, id, true);
    ListMarks(parent, list, id, true);
    forall t | t in updated ensures t.root.id != id {
      var i :| 0 <= i < |updated| && updated[i] == t;
      assert list[i] in list;
    }
    FilterAll(updated, (t: Thread) => t.root.id != id);
  }

  lemma RootsMarked(parent: Parents, list: Threads, id: Id, resolved: bool)
    requires ListOk(parent, list)
    ensures FindRoot(WithResolved(list, id, resolved), id).Some? <==> HasRoot(list, id)
  {
    var updated := WithResolved(list, id, resolved);
    ListMarks(parent, list, id, resolved);
    if t :| t in list && t.root.id == id {
      var i :| 0 <= i < |list| && list[i] == t;
      assert updated[i] in updated && updated[i].root.id == id;
    }
    if FindRoot(updated, id).Some? {
      var i := RootIndex(updated, id);
      assert list[i] in list;
    }
  }

  /** A reopened comment that is in the list, or is the root of no loaded thread, is only marked. */
  lemma ReopenedStays(parent: Parents, list: Threads, id: Id, all: Option<Threads>)
    requires ListOk(parent, list) && (HasRoot(list, id) || (all.Some? ==> !HasRoot(all.value, id)))
    ensures Marked(list, WithUnresolved(list, id, false, all), id, false)
  {
    ListMarks(parent, list, id, false);
    RootsMarked(parent, list, id, false);
    if all.Some? && !HasRoot(all.value, id) {
      RootIndexNone(all.value, id);
    }
  }

  /** How many threads of a list are strictly newer than one, up to the first that is not. */
  function NewerThan(t: Thread, list: Threads): (k: nat)
    ensures k <= |list| && forall i | 0 <= i < k :: list[i].root.createdAt > t.root.createdAt
  {
    if list == [] || list[0].root.createdAt <= t.root.createdAt then 0 else 1 + NewerThan(t, list[1..])
  }

  lemma {:induction false} InsertedAt(t: Thread, list: Threads, k: nat)
    requires k == NewerThan(t, list)
    ensures Insert(t, list, Newer) == list[..k] + ([t] + list[k..])
    decreases |list|
  {
    if k > 0 {
      InsertedAt(t, list[1..], k - 1);
      assert list[..k] == [list[0]] + list[1..][..k - 1];
      assert list[1..][k - 1..] == list[k..];
      Regroup([list[0]], list[1..][..k - 1], [t] + list[k..]);
    } else {
      assert list[..0] + ([t] + list[0..]) == [t] + list;
    }
  }

  lemma {:induction false} SkipInserted(t: Thread, list: Threads, k: nat, r: Threads)
    requires k <= |list| && r == list[..k] + ([t] + list[k..])
    ensures k < |r| && r[k] == t && Skip(r, k) == list && forall i | 0 <= i < k :: r[i] == list[i]
  {
    assert r[..k] == list[..k] && r[k + 1..] == list[k..];
  }

  /** What a reopen does when only the list of all has the thread. */
  lemma ReopenedIs(parent: Parents, list: Threads, id: Id, all: Threads, t: Thread, updated: Threads, reopened: Thread)
    requires ListOk(parent, list) && ListOk(parent, all) && !HasRoot(list, id) && t in all && t.root.id == id
    requires updated == WithResolved(list, id, false) && Sorted(updated, Newer)
    requires reopened == Thread(t.root.(resolved := false), t.replies)
    ensures WithUnresolved(list, id, false, Some(all)) == Insert(reopened, updated, Newer)
  {
    RootsMarked(parent, list, id, false);
    FindRootFinds(all, t);
    SortInserts(updated, reopened);
  }

  lemma MarkedInOrder(list: Threads, updated: Threads, id: Id)
    requires Marked(list, updated, id, false) && Sorted(list, Newer)
    ensures Sorted(updated, Newer)
  {
    forall i, j | 0 <= i < j < |updated| ensures Newer(updated[i], updated[j]) {
      assert MarkedThread(list[i], updated[i], id, false) && MarkedThread(list[j], updated[j], id, false);
    }
  }

  lemma ComesIn(updated: Threads, t: Thread, r: Threads) returns (k: nat)
    requires Sorted(updated, Newer) && r == Insert(t, updated, Newer)
    ensures k < |r| && r[k] == t && Skip(r, k) == updated && Sorted(r, Newer)
    ensures forall i | 0 <= i < k :: r[i].root.createdAt > t.root.createdAt
  {
    k := NewerThan(t, updated);
    InsertedAt(t, updated, k);
    SkipInserted(t, updated, k, r);
    InsertSorts(t, updated, Newer);
  }

  /** A reopened thread that only the list of all has comes in unresolved, first among those of its age; nothing else changes. */
  lemma ReopenedComesIn(parent: Parents, list: Threads, id: Id, all: Threads, t: Thread) returns (k: nat)
    requires ListOk(parent, list) && ListOk(parent, all) && Sorted(list, Newer)
    requires !HasRoot(list, id) && t in all && t.root.id == id
    ensures var r := WithUnresolved(list, id, false, Some(all));
            && k < |r| && r[k].root == t.root.(resolved := false) && r[k].replies == t.replies
            && Marked(list, Skip(r, k), id, false) && Sorted(r, Newer)
            && forall i | 0 <= i < k :: r[i].root.createdAt > t.root.createdAt
  {
    var updated, reopened := WithResolved(list, id, false), Thread(t.root.(resolved := false), t.replies);
    ListMarks(parent, list, id, false);
    MarkedInOrder(list, updated, id);
    ReopenedIs(parent, list, id, all, t, updated, reopened);
    k := ComesIn(updated, reopened, Insert(reopened, updated, Newer));
  }

  /** After a resolve the list of unresolved threads has no thread of that root. */
  lemma OpenAfterResolve(parent: Parents, c: Caches, id: Id)
    requires CacheOk(parent, c.open) && c.open.Some?
    ensures Resolve(c, id, true).open.Some? && !HasRoot(Resolve(c, id, true).open.value, id)
  {
    if HasRoot(c.open.value, id) {
      var t :| t in c.open.value && t.root.id == id;
      var k :| 0 <= k < |c.open.value| && c.open.value[k] == t;
      ResolvedRootLeaves(parent, c.open.value, id, c.all, k);
    } else {
      ResolvedReplyStays(parent, c.open.value, id, c.all);
      NoRootMarked(c.open.value, Resolve(c, id, true).open.value, id, true);
    }
  }

  lemma NoRootMarked(list: Threads, after: Threads, id: Id, resolved: bool)
    requires Marked(list, after, id, resolved) && !HasRoot(list, id)
    ensures !HasRoot(after, id)
  {
    if t :| t in after && t.root.id == id {
      var i :| 0 <= i < |after| && after[i] == t;
      assert MarkedThread(list[i], after[i], id, resolved) && list[i] in list;
    }
  }

  /** After a reopen it shows the thread, unresolved, exactly if one of the two lists had it. */
  lemma OpenAfterReopen(parent: Parents, c: Caches, id: Id)
    requires CacheOk(parent, c.open) && CacheOk(parent, c.all) && c.open.Some? && Sorted(c.open.value, Newer)
    ensures var r := Resolve(c, id, false).open;
            && r.Some?
            && (HasRoot(r.value, id) <==> HasRoot(c.open.value, id) || (c.all.Some? && HasRoot(c.all.value, id)))
            && forall t | t in r.value && t.root.id == id :: !t.root.resolved
  {
    var list, r := c.open.value, Resolve(c, id, false).open.value;
    if !HasRoot(list, id) && c.all.Some? && HasRoot(c.all.value, id) {
      var t :| t in c.all.value && t.root.id == id;
      var k := ReopenedComesIn(parent, list, id, c.all.value, t);
      assert r[k] in r;
      NoRootMarked(list, Skip(r, k), id, false);
      OnlyAt(r, k, id);
    } else {
      ReopenedStays(parent, list, id, c.all);
      MarkedRoots(list, r, id);
    }
  }

  lemma MarkedRoots(list: Threads, after: Threads, id: Id)
    requires Marked(list, after, id, false)
    ensures HasRoot(after, id) <==> HasRoot(list, id)
    ensures forall t | t in after && t.root.id == id :: !t.root.resolved
  {
    forall t | t in after && t.root.id == id ensures HasRoot(list, id) && !t.root.resolved {
      var i :| 0 <= i < |after| && after[i] == t;
      assert MarkedThread(list[i], after[i], id, false) && list[i] in list;
    }
    if t :| t in list && t.root.id == id {
      var i :| 0 <= i < |list| && list[i] == t;
      assert MarkedThread(list[i], after[i], id, false) && after[i] in after;
    }
  }

  lemma OnlyAt(r: Threads, k: nat, id: Id)
    requires k < |r| && !HasRoot(Skip(r, k), id)
    ensures forall t | t in r && t.root.id == id :: t == r[k]
  {
    forall i | 0 <= i < |r| && i != k ensures r[i].root.id != id {
      var j := if i < k then i else i - 1;
      assert r[i] == Skip(r, k)[j] && Skip(r, k)[j] in Skip(r, k);
    }
  }

  // --- Rolling back -------------------------------------------------------------------------------

  /** The comment with this id has the resolution it had before; every other field, and every other comment, is as it is now. */
  predicate RestoredEntry(now: Entry, after: Entry, before: Entry, id: Id) {
    && after.id == now.id && after.parentId == now.parentId
    && after.createdAt == now.createdAt && after.replyCount == now.replyCount && after.body == now.body
    && after.resolved == (if now.id == id then before.resolved else now.resolved)
    && after.resolvedBy == (if now.id == id then before.resolvedBy else now.resolvedBy)
    && after.resolvedAt == (if now.id == id then before.resolvedAt else now.resolvedAt)
  }

  /** A thread that is still loaded keeps what it shows now, with the resolution of a root from before. */
  lemma RootRestored(parent: Parents, now: Thread, before: Thread, i: nat)
    requires ThreadOk(parent, now) && now.root.id == before.root.id
    ensures var r, id := RestoreFlags(now, before.root.id, before), before.root.id;
            && RestoredEntry(now.root, r.root, before.root, id)
            && |r.replies| == |now.replies|
            && (i < |now.replies| ==> r.replies[i] == now.replies[i])
  {
  }

  /** The same for a reply that the thread had before. */
  lemma ReplyRestored(parent: Parents, now: Thread, before: Thread, k: nat, i: nat)
    requires ThreadOk(parent, now) && ThreadOk(parent, before) && now.root.id == before.root.id && k < |before.replies|
    ensures var id := before.replies[k].id;
            var r := RestoreFlags(now, id, before);
            && r.root == now.root && |r.replies| == |now.replies|
            && (i < |now.replies| ==> RestoredEntry(now.replies[i], r.replies[i], before.replies[k], id))
  {
    assert before.replies[k] in before.replies;
    FindReplyFinds(before.replies, before.replies[k].id, k);
  }

  /** The list after a rollback: the restored thread and, as they are, all threads with other roots, newest first. */
  lemma RestoredList(parent: Parents, list: Threads, id: Id, before: Thread, other: Option<Threads>, t: Thread)
    requires ListOk(parent, list)
    ensures var r, now := RestoreThread(list, id, Some(before), other), Found(list, other, before.root.id);
            && Sorted(r, Newer)
            && (t in r <==> t == (if now.Some? then RestoreFlags(now.value, id, before) else before)
                            || (t in list && t.root.id != before.root.id))
  {
    var now := Found(list, other, before.root.id);
    var restored := if now.Some? then RestoreFlags(now.value, id, before) else before;
    var shuffled := [restored] + DropRoot(list, before.root.id);
    SortSorts(shuffled, Newer);
    SameElements(shuffled, Sort(shuffled, Newer), t);
  }
}
