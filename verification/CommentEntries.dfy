/**
 * What each change of a cached list shows, comment by comment, with all fields and in order
 * (live/src/hooks/use-comments.ts, `removeOptimisticComment` to `preservePendingOptimisticComments`).
 */
module CommentEntries {
  import opened Wrappers
  import opened Sorting
  import opened Comments
  import CommentUndo

  /** The comments of a thread as they are shown. How many replies a root counts follows from its thread. */
  function Entries(t: Thread): seq<Entry> {
    [t.root.(replyCount := 0)] + t.replies
  }

  function AllEntries(list: Threads): seq<Entry> {
    if list == [] then [] else Entries(list[0]) + AllEntries(list[1..])
  }

  lemma {:induction false} EntriesConcat(x: Threads, y: Threads)
    ensures AllEntries(x + y) == AllEntries(x) + AllEntries(y)
  {
    if x == [] {
      assert x + y == y;
    } else {
      assert (x + y)[1..] == x[1..] + y;
      EntriesConcat(x[1..], y);
      Regroup(Entries(x[0]), AllEntries(x[1..]), AllEntries(y));
    }
  }

  lemma EntriesOfOne(t: Thread)
    ensures AllEntries([t]) == Entries(t)
  {
    assert [t][1..] == [];
  }

  lemma EntriesCons(t: Thread, rest: Threads)
    ensures AllEntries([t] + rest) == Entries(t) + AllEntries(rest)
  {
    assert ([t] + rest)[1..] == rest;
  }

  // --- Adding ---------------------------------------------------------------------------

  /** A new thread is shown first. */
  lemma AddedRoot(list: Threads, e: Entry)
    requires e.parentId.None? && e.replyCount == 0
    ensures AllEntries(AddOptimistic(list, e)) == [e] + AllEntries(list)
  {
    EntriesCons(Thread(e, []), list);
    assert Entries(Thread(e, [])) == [e];
  }

  /** A new reply is shown last in its thread. */
  lemma AddedReply(parent: Parents, list: Threads, e: Entry, i: nat)
    requires ListOk(parent, list) && i < |list| && e.parentId == Some(list[i].root.id)
    ensures AllEntries(AddOptimistic(list, e)) == AllEntries(list[..i + 1]) + [e] + AllEntries(list[i + 1..])
  {
    var r, x, t, y := AddOptimistic(list, e), list[..i], list[i], list[i + 1..];
    assert r == x + [WithReply(t, e)] + y;
    EntriesConcat(x + [WithReply(t, e)], y);
    EntriesConcat(x, [WithReply(t, e)]);
    EntriesConcat(x, [t]);
    EntriesOfOne(t);
    EntriesOfOne(WithReply(t, e));
    assert Entries(WithReply(t, e)) == Entries(t) + [e];
    assert list[..i + 1] == x + [t];
    Regroup(AllEntries(x), Entries(t), [e]);
  }

  // --- Taking out -------------------------------------------------------------------------

  function Others(id: Id): Entry -> bool {
    (e: Entry) => e.id != id
  }

  lemma FilterCons(e: Entry, rest: seq<Entry>, id: Id)
    ensures Filter([e] + rest, Others(id)) == (if e.id != id then [e] else []) + Filter(rest, Others(id))
  {
    assert ([e] + rest)[1..] == rest;
  }

  lemma ThreadWithout(t: Thread, id: Id)
    requires t.root.id != id
    ensures Entries(WithoutReply(t, id)) == Filter(Entries(t), Others(id))
  {
    FilterCons(t.root.(replyCount := 0), t.replies, id);
    SameFilter(t.replies, (r: Entry) => r.id != id, Others(id));
  }

  lemma {:induction false} SameFilter(s: seq<Entry>, f: Entry -> bool, g: Entry -> bool)
    requires forall e | e in s :: f(e) <==> g(e)
    ensures Filter(s, f) == Filter(s, g)
  {
    if s != [] {
      SameFilter(s[1..], f, g);
    }
  }

  /** A count goes down by one with the reply, but never below zero, whatever it was. */
  lemma CountAfter(t: Thread, id: Id)
    ensures HasReply(t, id) && t.root.replyCount > 0 ==> WithoutReply(t, id).root.replyCount == t.root.replyCount - 1
    ensures HasReply(t, id) && t.root.replyCount <= 0 ==> WithoutReply(t, id).root.replyCount == 0
    ensures !HasReply(t, id) ==> WithoutReply(t, id) == t
  {
    if !HasReply(t, id) {
      FilterAll(t.replies, (r: Entry) => r.id != id);
    }
  }

  function LeftOf(t: Thread, id: Id): Threads {
    if t.root.id == id then [] else [WithoutReply(t, id)]
  }

  lemma LeftEntries(parent: Parents, t: Thread, id: Id)
    requires ThreadOk(parent, t) && id.Optimistic?
    ensures AllEntries(LeftOf(t, id)) == Filter(Entries(t), Others(id))
  {
    if t.root.id == id {
      assert Entries(t) == [t.root.(replyCount := 0)] + [];
      FilterCons(t.root.(replyCount := 0), [], id);
    } else {
      EntriesOfOne(WithoutReply(t, id));
      ThreadWithout(t, id);
    }
  }

  lemma RemovedFirst(list: Threads, id: Id)
    requires list != []
    ensures RemoveOptimistic(list, id) == LeftOf(list[0], id) + RemoveOptimistic(list[1..], id)
  {
    assert list == [list[0]] + list[1..];
    CommentUndo.RemoveCons(list[0], list[1..], id);
  }

  /** Taking out a pending comment leaves all others, in their order. */
  lemma {:induction false} Removed(parent: Parents, list: Threads, id: Id)
    requires (forall t | t in list :: ThreadOk(parent, t)) && id.Optimistic?
    ensures AllEntries(RemoveOptimistic(list, id)) == Filter(AllEntries(list), Others(id))
  {
    if list != [] {
      RemovedFirst(list, id);
      Removed(parent, list[1..], id);
      LeftEntries(parent, list[0], id);
      EntriesConcat(LeftOf(list[0], id), RemoveOptimistic(list[1..], id));
      FilterConcat(Entries(list[0]), AllEntries(list[1..]), Others(id));
    }
  }

  // --- Success -----------------------------------------------------------------------------------

  function Saving(id: Id, saved: Entry): Entry -> Entry {
    (e: Entry) => if e.id == id then saved else e
  }

  lemma ThreadSaved(parent: Parents, t: Thread, id: Id, saved: Entry)
    requires ThreadOk(parent, t) && id.Optimistic? && saved.replyCount == 0
    ensures Entries(Substitute(t, id, saved)) == Map(Entries(t), Saving(id, saved))
  {
    if t.root.id == id {
      assert t.replies == [];
    }
  }

  lemma MapConcat(x: seq<Entry>, y: seq<Entry>, f: Entry -> Entry)
    ensures Map(x + y, f) == Map(x, f) + Map(y, f)
  {
  }

  lemma {:induction false} Substituted(parent: Parents, list: Threads, id: Id, saved: Entry)
    requires (forall t | t in list :: ThreadOk(parent, t)) && id.Optimistic? && saved.replyCount == 0
    ensures AllEntries(Map(list, (t: Thread) => Substitute(t, id, saved))) == Map(AllEntries(list), Saving(id, saved))
  {
    if list != [] {
      var t, rest := list[0], list[1..];
      var r := Map(list, (t: Thread) => Substitute(t, id, saved));
      assert r == [Substitute(t, id, saved)] + Map(rest, (t: Thread) => Substitute(t, id, saved));
      Substituted(parent, rest, id, saved);
      ThreadSaved(parent, t, id, saved);
      EntriesCons(Substitute(t, id, saved), Map(rest, (t: Thread) => Substitute(t, id, saved)));
      MapConcat(Entries(t), AllEntries(rest), Saving(id, saved));
    }
  }

  /**
   * After success the saved comment stands in the place of the pending one, with all its own fields; if a refetch has
   * brought it already, the pending one just goes. All other comments are as they were, in their order.
   */
  lemma Replaced(parent: Parents, list: Threads, id: Id, saved: Entry)
    requires ListOk(parent, list) && id.Optimistic? && saved.replyCount == 0
    ensures AllEntries(ReplaceOptimistic(list, id, saved))
            == if Listed(list, saved.id) then Filter(AllEntries(list), Others(id)) else Map(AllEntries(list), Saving(id, saved))
  {
    if Listed(list, saved.id) {
      Removed(parent, list, id);
    } else {
      Substituted(parent, list, id, saved);
    }
  }

  // --- A refetch ------------------------------------------------------------------------------------

  /** The server's thread, with the replies still pending in the thread of before behind its own. */
  function Grown(t: Thread, pending: seq<Entry>): Thread {
    Thread(t.root.(replyCount := t.root.replyCount + |pending|), t.replies + pending)
  }

  /** The replies of a thread that have no answer yet. */
  function StillPending(previous: Threads, id: Id): seq<Entry> {
    if previous == [] then []
    else if previous[0].root.id == id then Filter(previous[0].replies, (r: Entry) => r.id.Optimistic?)
    else StillPending(previous[1..], id)
  }

  function Growth(previous: Threads): Thread -> Thread {
    (t: Thread) => Grown(t, StillPending(previous, t.root.id))
  }

  /** The threads still pending that a list lacks, the last of them first. */
  function NewThreads(list: Threads, previous: Threads): Threads {
    if previous == [] then []
    else
      var t := previous[0];
      NewThreads(list, previous[1..]) + if t.root.id.Optimistic? && !HasRoot(list, t.root.id) then [t] else []
  }

  /** The saved threads that a list lacks and in which a reply is pending. */
  function PutBack(list: Threads, previous: Threads): Threads {
    if previous == [] then []
    else
      var t := previous[0];
      var kept := t.root.id.Stored? && !HasRoot(list, t.root.id) && exists r | r in t.replies :: r.id.Optimistic?;
      (if kept then [t] else []) + PutBack(list, previous[1..])
  }

  lemma {:induction false} AppendNew(t: Thread, replies: seq<Entry>)
    requires forall r | r in replies :: !HasReply(t, r.id)
    requires forall i, j | 0 <= i < j < |replies| :: replies[i].id != replies[j].id
    ensures AppendMissing(t, replies) == Grown(t, replies)
    decreases |replies|
  {
    if replies == [] {
      assert t.replies + [] == t.replies;
    } else {
      var next := WithReply(t, replies[0]);
      assert replies[0] in replies;
      forall r | r in replies[1..] ensures !HasReply(next, r.id) {
        var k :| 0 <= k < |replies[1..]| && replies[1..][k] == r;
        assert replies[0].id != replies[k + 1].id && r in replies;
        assert forall x | x in next.replies :: x in t.replies || x == replies[0];
      }
      AppendNew(next, replies[1..]);
      Regroup(t.replies, [replies[0]], replies[1..]);
      assert [replies[0]] + replies[1..] == replies;
    }
  }

  lemma {:induction false} AppendKnown(t: Thread, replies: seq<Entry>)
    requires forall r | r in replies :: HasReply(t, r.id)
    ensures AppendMissing(t, replies) == t
    decreases |replies|
  {
    if replies != [] {
      assert replies[0] in replies;
      AppendKnown(t, replies[1..]);
    }
  }

  /** No thread that both lists have shows a pending reply in the first. */
  ghost predicate NonePending(list: Threads, previous: Threads) {
    forall s, t, r | s in list && t in previous && s.root.id == t.root.id && r in s.replies :: r.id.Stored?
  }

  lemma {:induction false} NotPendingThere(previous: Threads, id: Id)
    requires forall t | t in previous :: t.root.id != id
    ensures StillPending(previous, id) == []
  {
    if previous != [] {
      assert previous[0] in previous;
      NotPendingThere(previous[1..], id);
    }
  }

  lemma GrownByNone(t: Thread)
    ensures Grown(t, []) == t
  {
    assert t.replies + [] == t.replies;
  }

  /** What a list has beside one more thread does not matter for threads with other roots. */
  lemma {:induction false} SameRootsSame(list: Threads, next: Threads, previous: Threads)
    requires forall t | t in previous :: HasRoot(list, t.root.id) <==> HasRoot(next, t.root.id)
    ensures NewThreads(list, previous) == NewThreads(next, previous) && PutBack(list, previous) == PutBack(next, previous)
  {
    if previous != [] {
      assert previous[0] in previous;
      SameRootsSame(list, next, previous[1..]);
    }
  }

  /** The later threads have other roots. */
  ghost predicate OtherRoots(t: Thread, rest: Threads) {
    forall x | x in rest :: x.root.id != t.root.id
  }

  lemma RestApart(parent: Parents, previous: Threads)
    requires ListOk(parent, previous) && previous != []
    ensures OtherRoots(previous[0], previous[1..]) && ListOk(parent, previous[1..]) && ThreadOk(parent, previous[0])
  {
    forall x | x in previous[1..] ensures x.root.id != previous[0].root.id {
      var k :| 0 <= k < |previous[1..]| && previous[1..][k] == x;
      assert previous[k + 1] == x;
    }
  }

  /** What the first thread adds to a list that has it: its pending replies. */
  lemma {:induction false} MergeHere(parent: Parents, list: Threads, t: Thread, i: nat)
    requires ThreadOk(parent, t) && i < |list| && list[i].root.id == t.root.id
    requires forall r | r in list[i].replies :: r.id.Stored?
    ensures AppendMissing(list[i], PendingReplies(t)) == Grown(list[i], PendingReplies(t))
  {
    FilterDistinct(t.replies, (r: Entry) => r.id.Optimistic?);
    AppendNew(list[i], PendingReplies(t));
  }

  /** What it adds in any case: itself in front or at the end, or its pending replies to the thread that is there. */
  lemma {:induction false} MergeStep(parent: Parents, list: Threads, t: Thread, pending: seq<Entry>, i: int)
    requires ThreadOk(parent, t) && ListOk(parent, list) && NonePending(list, [t])
    requires pending == PendingReplies(t) && i == RootIndex(list, t.root.id)
    ensures MergeThread(list, t) == if i >= 0 then list[i := Grown(list[i], pending)]
                                    else if t.root.id.Optimistic? then [t] + list
                                    else if pending != [] then list + [t] else list
    ensures t.root.id.Optimistic? ==> pending == []
  {
    if i >= 0 {
      assert t in [t] && list[i] in list;
      MergeHere(parent, list, t, i);
      GrownByNone(list[i]);
    }
  }

  /** The closed form of merging: new threads in front, the threads that are there grown in place, and those put back behind. */
  function MergedForm(list: Threads, previous: Threads): Threads {
    NewThreads(list, previous) + Map(list, Growth(previous)) + PutBack(list, previous)
  }

  lemma {:induction false} GrowthNext(list: Threads, t: Thread, rest: Threads)
    requires forall x | x in list :: x.root.id != t.root.id
    ensures Map(list, Growth([t] + rest)) == Map(list, Growth(rest))
  {
    assert ([t] + rest)[1..] == rest;
    forall k | 0 <= k < |list| ensures Map(list, Growth([t] + rest))[k] == Map(list, Growth(rest))[k] {
      assert list[k] in list;
    }
  }

  lemma {:induction false} PendingFirst(t: Thread, rest: Threads)
    ensures StillPending([t] + rest, t.root.id) == Filter(t.replies, (r: Entry) => r.id.Optimistic?)
    ensures forall id | id != t.root.id :: StillPending([t] + rest, id) == StillPending(rest, id)
  {
    assert ([t] + rest)[1..] == rest;
  }

  /** How each thread of a list grows, once the one at `i` has. */
  lemma {:induction false} GrowthAt(list: Threads, t: Thread, rest: Threads, i: nat, next: Threads, k: nat)
    requires i < |list| && k < |list| && list[i].root.id == t.root.id && OtherRoots(t, rest)
    requires k != i ==> list[k].root.id != t.root.id
    requires next == list[i := Grown(list[i], PendingReplies(t))]
    ensures Growth([t] + rest)(list[k]) == Growth(rest)(next[k])
  {
    PendingFirst(t, rest);
    if k == i {
      NotPendingThere(rest, t.root.id);
      GrownByNone(next[i]);
    }
  }

  lemma {:induction false} GrowthInto(list: Threads, t: Thread, rest: Threads, i: nat, next: Threads)
    requires i < |list| && list[i].root.id == t.root.id && OtherRoots(t, rest)
    requires forall j, k | 0 <= j < k < |list| :: list[j].root.id != list[k].root.id
    requires next == list[i := Grown(list[i], PendingReplies(t))]
    ensures Map(list, Growth([t] + rest)) == Map(next, Growth(rest))
  {
    forall k | 0 <= k < |list| ensures Map(list, Growth([t] + rest))[k] == Map(next, Growth(rest))[k] {
      assert k < i ==> list[k].root.id != list[i].root.id;
      assert i < k ==> list[i].root.id != list[k].root.id;
      GrowthAt(list, t, rest, i, next, k);
    }
  }

  /** The first thread is in the list: it grows there. */
  lemma {:induction false} FormInto(list: Threads, t: Thread, rest: Threads, i: nat, next: Threads)
    requires i < |list| && list[i].root.id == t.root.id && OtherRoots(t, rest)
    requires forall j, k | 0 <= j < k < |list| :: list[j].root.id != list[k].root.id
    requires next == list[i := Grown(list[i], PendingReplies(t))]
    ensures MergedForm(list, [t] + rest) == MergedForm(next, rest)
  {
    RootsSame(list, next);
    SameRootsSame(list, next, rest);
    GrowthInto(list, t, rest, i, next);
    assert list[i] in list;
    NewFirst(list, t, rest);
    BackFirst(list, t, rest);
    assert NewThreads(list, rest) + [] == NewThreads(list, rest) && [] + PutBack(list, rest) == PutBack(list, rest);
  }

  lemma {:induction false} RootsSame(list: Threads, next: Threads)
    requires |next| == |list| && forall k | 0 <= k < |list| :: next[k].root.id == list[k].root.id
    ensures forall id :: HasRoot(list, id) <==> HasRoot(next, id)
  {
    forall id ensures HasRoot(list, id) <==> HasRoot(next, id) {
      if x :| x in list && x.root.id == id {
        var k :| 0 <= k < |list| && list[k] == x;
        assert next[k] in next;
      }
      if x :| x in next && x.root.id == id {
        var k :| 0 <= k < |next| && next[k] == x;
        assert list[k] in list;
      }
    }
  }

  lemma {:induction false} NewFirst(list: Threads, t: Thread, rest: Threads)
    ensures NewThreads(list, [t] + rest)
            == NewThreads(list, rest) + if t.root.id.Optimistic? && !HasRoot(list, t.root.id) then [t] else []
  {
    assert ([t] + rest)[1..] == rest;
  }

  lemma {:induction false} BackFirst(list: Threads, t: Thread, rest: Threads)
    ensures PutBack(list, [t] + rest)
            == (if t.root.id.Stored? && !HasRoot(list, t.root.id) && PendingReplies(t) != [] then [t] else []) + PutBack(list, rest)
  {
    assert ([t] + rest)[1..] == rest;
    assert PendingReplies(t) != [] ==> PendingReplies(t)[0] in PendingReplies(t);
  }

  /** A thread that no later one grows stays as it is. */
  lemma {:induction false} MapWith(list: Threads, t: Thread, rest: Threads)
    requires OtherRoots(t, rest)
    ensures Map([t] + list, Growth(rest)) == [t] + Map(list, Growth(rest))
    ensures Map(list + [t], Growth(rest)) == Map(list, Growth(rest)) + [t]
  {
    NotPendingThere(rest, t.root.id);
    GrownByNone(t);
  }

  lemma {:induction false} WithOneMore(list: Threads, next: Threads, t: Thread, rest: Threads)
    requires (next == [t] + list || next == list + [t]) && OtherRoots(t, rest)
    ensures NewThreads(list, rest) == NewThreads(next, rest) && PutBack(list, rest) == PutBack(next, rest)
  {
    assert forall x :: x in next <==> x in list || x == t;
    SameRootsSame(list, next, rest);
  }

  lemma {:induction false} Unlisted(list: Threads, t: Thread)
    requires !HasRoot(list, t.root.id)
    ensures forall x | x in list :: x.root.id != t.root.id
  {
  }

  /** The first thread is pending itself, and the list lacks it: it comes in front. */
  lemma {:induction false} FormNew(list: Threads, t: Thread, rest: Threads, next: Threads)
    requires !HasRoot(list, t.root.id) && OtherRoots(t, rest) && t.root.id.Optimistic? && next == [t] + list
    ensures MergedForm(list, [t] + rest) == MergedForm(next, rest)
  {
    var grown := Map(list, Growth(rest));
    NewFirst(list, t, rest);
    BackFirst(list, t, rest);
    WithOneMore(list, next, t, rest);
    Unlisted(list, t);
    GrowthNext(list, t, rest);
    MapWith(list, t, rest);
    Regroup(NewThreads(list, rest), [t], grown);
    assert [] + PutBack(list, rest) == PutBack(list, rest);
  }

  /** The first thread is saved, the list lacks it, and a reply is pending in it: it comes behind. */
  lemma {:induction false} FormBack(list: Threads, t: Thread, rest: Threads, next: Threads)
    requires !HasRoot(list, t.root.id) && OtherRoots(t, rest) && t.root.id.Stored? && next == list + [t]
    requires PendingReplies(t) != []
    ensures MergedForm(list, [t] + rest) == MergedForm(next, rest)
  {
    var news, grown, back := NewThreads(list, rest), Map(list, Growth(rest)), PutBack(list, rest);
    NewFirst(list, t, rest);
    BackFirst(list, t, rest);
    WithOneMore(list, next, t, rest);
    Unlisted(list, t);
    GrowthNext(list, t, rest);
    MapWith(list, t, rest);
    assert news + [] == news;
    Regroup(news, grown, [t]);
    Regroup(news + grown, [t], back);
  }

  /** The first thread is saved, the list lacks it, and nothing in it is pending: it goes. */
  lemma {:induction false} FormGone(list: Threads, t: Thread, rest: Threads)
    requires !HasRoot(list, t.root.id) && t.root.id.Stored? && PendingReplies(t) == []
    ensures MergedForm(list, [t] + rest) == MergedForm(list, rest)
  {
    NewFirst(list, t, rest);
    BackFirst(list, t, rest);
    Unlisted(list, t);
    GrowthNext(list, t, rest);
    assert NewThreads(list, rest) + [] == NewThreads(list, rest) && [] + PutBack(list, rest) == PutBack(list, rest);
  }

  lemma {:induction false} NonePendingRest(list: Threads, t: Thread, rest: Threads, next: Threads)
    requires NonePending(list, [t] + rest) && OtherRoots(t, rest)
    requires forall s | s in next :: s in list || s.root.id == t.root.id
    ensures NonePending(list, [t]) && NonePending(next, rest)
  {
    assert t in [t] + rest;
    assert forall x | x in rest :: x in [t] + rest;
  }

  /** What one merge step can make of a list. */
  ghost predicate StepTo(list: Threads, t: Thread, next: Threads, i: int) {
    if i >= 0 then i < |list| && list[i].root.id == t.root.id && next == list[i := Grown(list[i], PendingReplies(t))]
    else
      && !HasRoot(list, t.root.id)
      && next == if t.root.id.Optimistic? then [t] + list else if PendingReplies(t) != [] then list + [t] else list
  }

  lemma {:induction false} MergeStepTo(parent: Parents, list: Threads, t: Thread)
    requires ThreadOk(parent, t) && ListOk(parent, list) && NonePending(list, [t])
    ensures StepTo(list, t, MergeThread(list, t), RootIndex(list, t.root.id))
  {
    MergeStep(parent, list, t, PendingReplies(t), RootIndex(list, t.root.id));
  }

  /** One merge step, against the closed form. */
  lemma {:induction false} FormStep(list: Threads, t: Thread, rest: Threads, next: Threads, i: int)
    requires StepTo(list, t, next, i) && OtherRoots(t, rest)
    requires forall j, k | 0 <= j < k < |list| :: list[j].root.id != list[k].root.id
    ensures MergedForm(list, [t] + rest) == MergedForm(next, rest)
  {
    if i >= 0 {
      FormInto(list, t, rest, i, next);
    } else if t.root.id.Optimistic? {
      FormNew(list, t, rest, next);
    } else if PendingReplies(t) != [] {
      FormBack(list, t, rest, next);
    } else {
      FormGone(list, t, rest);
    }
  }

  lemma {:induction false} StepRoots(list: Threads, t: Thread, next: Threads, i: int)
    requires StepTo(list, t, next, i)
    ensures forall s | s in next :: s in list || s.root.id == t.root.id
  {
  }

  lemma {:induction false} MergeAllForm(parent: Parents, list: Threads, previous: Threads)
    requires ListOk(parent, list) && ListOk(parent, previous) && NonePending(list, previous)
    ensures MergeAll(list, previous) == MergedForm(list, previous)
    decreases |previous|
  {
    if previous == [] {
      forall k | 0 <= k < |list| ensures Map(list, Growth([]))[k] == list[k] {
        GrownByNone(list[k]);
      }
      assert MergedForm(list, []) == list;
    } else {
      var t, rest, next := previous[0], previous[1..], MergeThread(list, previous[0]);
      assert previous == [t] + rest;
      RestApart(parent, previous);
      NonePendingRest(list, t, rest, list);
      MergeStepTo(parent, list, t);
      FormStep(list, t, rest, next, RootIndex(list, t.root.id));
      StepRoots(list, t, next, RootIndex(list, t.root.id));
      NonePendingRest(list, t, rest, next);
      MergeThreadKeeps(parent, list, t);
      MergeAllForm(parent, next, rest);
    }
  }

  /**
   * What a refetch leaves: the threads still pending, the server's threads with the replies still pending in them, and
   * the saved threads that the server lacks and in which a reply is pending, newest first.
   */
  lemma {:induction false} Refetched(parent: Parents, previous: Threads, server: Threads)
    requires SnapshotOk(parent, server) && ListOk(parent, previous)
    ensures PreservePending(Some(previous), server)
            == Sort(NewThreads(server, previous) + Map(server, Growth(previous)) + PutBack(server, previous), Newer)
    ensures PreservePending(None, server) == server
  {
    forall s, r | s in server && r in s.replies ensures r.id.Stored? {
      assert Mentions(s, r.id);
    }
    MergeAllForm(parent, server, previous);
  }
}
