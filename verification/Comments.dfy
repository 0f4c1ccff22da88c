/**
 * The cached comment lists of a file, and what optimistic changes do to them
 * (live/src/hooks/use-comments.ts).
 */
module Comments {
  import opened Wrappers
  import opened Sorting

  /** Ids starting with "optimistic:" are handed out by the client until the server answers. */
  datatype Id = Optimistic(uuid: string) | Stored(id: string)

  /** A comment or reply. `body` stands for every field that these operations only copy. */
  datatype Entry = Entry(id: Id, parentId: Option<Id>, resolved: bool, resolvedBy: Option<string>, resolvedAt: Option<string>,
                         createdAt: int, replyCount: int, body: string)

  datatype Thread = Thread(root: Entry, replies: seq<Entry>)

  type Threads = seq<Thread>

  // --- The operations on a loaded list ----------------------------------------------

  predicate HasId(replies: seq<Entry>, id: Id) {
    exists r | r in replies :: r.id == id
  }

  predicate HasReply(t: Thread, id: Id) {
    HasId(t.replies, id)
  }

  predicate Mentions(t: Thread, id: Id) {
    t.root.id == id || HasReply(t, id)
  }

  predicate Listed(list: Threads, id: Id) {
    exists t | t in list :: Mentions(t, id)
  }

  function WithReply(t: Thread, e: Entry): Thread {
    Thread(t.root.(replyCount := t.root.replyCount + 1), t.replies + [e])
  }

  function AddOptimistic(list: Threads, e: Entry): Threads {
    match e.parentId
    case None => [Thread(e, [])] + list
    case Some(p) => Map(list, (t: Thread) => if t.root.id == p then WithReply(t, e) else t)
  }

  function Decrement(n: int): int {
    if n - 1 < 0 then 0 else n - 1
  }

  function WithoutReply(t: Thread, id: Id): Thread {
    Thread(t.root.(replyCount := if HasReply(t, id) then Decrement(t.root.replyCount) else t.root.replyCount),
           Filter(t.replies, (r: Entry) => r.id != id))
  }

  function RemoveOptimistic(list: Threads, id: Id): Threads {
    Map(Filter(list, (t: Thread) => t.root.id != id), (t: Thread) => WithoutReply(t, id))
  }

  /** One thread, when the saved comment is not listed yet. */
  function Substitute(t: Thread, id: Id, saved: Entry): Thread {
    if t.root.id == id then Thread(saved, t.replies)
    else Thread(t.root, Map(t.replies, (r: Entry) => if r.id == id then saved else r))
  }

  function ReplaceOptimistic(list: Threads, id: Id, saved: Entry): Threads {
    if Listed(list, saved.id) then RemoveOptimistic(list, id)
    else Map(list, (t: Thread) => Substitute(t, id, saved))
  }

  // --- Merging a refetch ----------------------------------------------------------------

  /** Newest first. */
  predicate Newer(a: Thread, b: Thread) {
    a.root.createdAt >= b.root.createdAt
  }

  function RootIndex(list: Threads, id: Id): (r: int)
    ensures -1 <= r < |list|
    ensures r >= 0 ==> list[r].root.id == id
    ensures r < 0 ==> forall t | t in list :: t.root.id != id
  {
    if list == [] then -1
    else if list[0].root.id == id then 0
    else
      var r := RootIndex(list[1..], id);
      if r < 0 then -1 else r + 1
  }

  lemma {:induction false} RootIndexNone(list: Threads, id: Id)
    requires forall t | t in list :: t.root.id != id
    ensures RootIndex(list, id) == -1
  {
    if list != [] {
      RootIndexNone(list[1..], id);
    }
  }

  function PendingReplies(t: Thread): seq<Entry> {
    Filter(t.replies, (r: Entry) => r.id.Optimistic?)
  }

  /** The replies not there yet, appended one by one. */
  function AppendMissing(t: Thread, replies: seq<Entry>): Thread
    decreases |replies|
  {
    if replies == [] then t
    else AppendMissing(if HasReply(t, replies[0].id) then t else WithReply(t, replies[0]), replies[1..])
  }

  /** What one thread of the previous list adds to the server's. */
  function MergeThread(list: Threads, previous: Thread): Threads {
    var index := RootIndex(list, previous.root.id);
    var pending := PendingReplies(previous);
    if previous.root.id.Optimistic? && index < 0 then
      var more := [previous] + list;
      if pending == [] then more else more[0 := AppendMissing(previous, pending)]
    else if pending == [] then list
    else if index < 0 then list + [previous]
    else list[index := AppendMissing(list[index], pending)]
  }

  function MergeAll(list: Threads, previous: Threads): Threads
    decreases |previous|
  {
    if previous == [] then list else MergeAll(MergeThread(list, previous[0]), previous[1..])
  }

  function PreservePending(previous: Option<Threads>, server: Threads): Threads {
    if previous.None? then server else Sort(MergeAll(server, previous.value), Newer)
  }

  /** The loop that unshifts, pushes and rewrites threads, then sorts. */
  method PreservePendingLoop(previous: Option<Threads>, server: Threads) returns (r: Threads)
    ensures r == PreservePending(previous, server)
  {
    if previous.None? {
      return server;
    }
    var comments, roots := server, previous.value;
    for i := 0 to |roots|
      invariant MergeAll(comments, roots[i..]) == MergeAll(server, roots)
    {
      var root := roots[i];
      assert roots[i..][0] == root && roots[i..][1..] == roots[i + 1..];
      ghost var before := comments;
      var pending := PendingReplies(root);
      var index := RootIndex(comments, root.root.id);
      if root.root.id.Optimistic? && index < 0 {
        comments, index := [root] + comments, 0;
      }
      if pending == [] {
        continue;
      }
      if index < 0 {
        comments := comments + [root];
        continue;
      }
      var merged := comments[index];
      for k := 0 to |pending|
        invariant AppendMissing(merged, pending[k..]) == AppendMissing(comments[index], pending)
      {
        assert pending[k..][0] == pending[k] && pending[k..][1..] == pending[k + 1..];
        if HasReply(merged, pending[k].id) {
          continue;
        }
        merged := WithReply(merged, pending[k]);
      }
      comments := comments[index := merged];
      assert comments == MergeThread(before, root);
    }
    return Sort(comments, Newer);
  }

  // --- Well-formed lists -------------------------------------------------------------------

  /** The parent of every comment there will ever be; an id's parent never changes. */
  type Parents = Id -> Option<Id>

  /** A thread: its replies belong to it, are listed once, and are counted; nobody replies to a comment not saved yet. */
  ghost predicate ThreadOk(parent: Parents, t: Thread) {
    && parent(t.root.id) == None
    && (forall r | r in t.replies :: parent(r.id) == Some(t.root.id))
    && (forall i, j | 0 <= i < j < |t.replies| :: t.replies[i].id != t.replies[j].id)
    && t.root.replyCount == |t.replies|
    && (t.root.id.Optimistic? ==> t.replies == [])
  }

  ghost predicate ListOk(parent: Parents, list: Threads) {
    && (forall t | t in list :: ThreadOk(parent, t))
    && (forall i, j | 0 <= i < j < |list| :: list[i].root.id != list[j].root.id)
  }

  /** What a server answers with: a well-formed list of saved comments. */
  ghost predicate SnapshotOk(parent: Parents, list: Threads) {
    && ListOk(parent, list)
    && forall t, id | t in list && Mentions(t, id) :: id.Stored?
  }

  /** In a well-formed list no id occurs twice, be it as a root or as a reply. */
  lemma NoIdTwice(parent: Parents, list: Threads)
    requires ListOk(parent, list)
    ensures forall i, j | 0 <= i < j < |list| :: list[i].root.id != list[j].root.id
    ensures forall i, j, k | 0 <= i < |list| && 0 <= j < |list| && 0 <= k < |list[j].replies| ::
              list[j].replies[k].id != list[i].root.id
    ensures forall i, k, j, l | 0 <= i < |list| && 0 <= k < |list[i].replies| && 0 <= j < |list| && 0 <= l < |list[j].replies| ::
              list[i].replies[k].id == list[j].replies[l].id ==> i == j && k == l
  {
    forall i, j, k | 0 <= i < |list| && 0 <= j < |list| && 0 <= k < |list[j].replies|
      ensures list[j].replies[k].id != list[i].root.id
    {
      assert ThreadOk(parent, list[i]) && ThreadOk(parent, list[j]);
      assert list[j].replies[k] in list[j].replies;
    }
    forall i, k, j, l | 0 <= i < |list| && 0 <= k < |list[i].replies| && 0 <= j < |list| && 0 <= l < |list[j].replies|
      ensures list[i].replies[k].id == list[j].replies[l].id ==> i == j && k == l
    {
      assert ThreadOk(parent, list[i]) && ThreadOk(parent, list[j]);
      assert list[i].replies[k] in list[i].replies && list[j].replies[l] in list[j].replies;
    }
  }

  // --- Single steps keep lists well formed ---------------------------------------------------

  lemma AddKeeps(parent: Parents, list: Threads, e: Entry)
    requires ListOk(parent, list) && !Listed(list, e.id) && parent(e.id) == e.parentId
    requires e.replyCount == 0 && (e.parentId.Some? ==> e.parentId.value.Stored?)
    ensures ListOk(parent, AddOptimistic(list, e))
    ensures Listed(AddOptimistic(list, e), e.id) <==>
              e.parentId == None || exists t | t in list :: t.root.id == e.parentId.value
    ensures forall id :: Listed(list, id) ==> Listed(AddOptimistic(list, e), id)
    ensures forall id :: Listed(AddOptimistic(list, e), id) ==> Listed(list, id) || id == e.id
  {
    match e.parentId
    case None => AddRootKeeps(parent, list, e);
    case Some(p) => AddReplyKeeps(parent, list, e, p);
  }

  lemma AddRootKeeps(parent: Parents, list: Threads, e: Entry)
    requires ListOk(parent, list) && !Listed(list, e.id) && parent(e.id) == e.parentId == None && e.replyCount == 0
    ensures ListOk(parent, AddOptimistic(list, e))
    ensures forall id :: Listed(AddOptimistic(list, e), id) <==> Listed(list, id) || id == e.id
  {
    var r := AddOptimistic(list, e);
    assert r[0] in r && Mentions(r[0], e.id);
    forall j | 0 < j < |r| ensures r[j].root.id != e.id {
      assert r[j] == list[j - 1] && !Mentions(list[j - 1], e.id);
    }
    forall id | Listed(list, id) ensures Listed(r, id) {
      var t :| t in list && Mentions(t, id);
      assert t in r;
    }
    forall id | Listed(r, id) ensures Listed(list, id) || id == e.id {
      var t :| t in r && Mentions(t, id);
      assert t in list || t == Thread(e, []);
    }
  }

  lemma AddReplyKeeps(parent: Parents, list: Threads, e: Entry, p: Id)
    requires ListOk(parent, list) && !Listed(list, e.id) && parent(e.id) == e.parentId == Some(p) && p.Stored?
    ensures ListOk(parent, AddOptimistic(list, e))
    ensures Listed(AddOptimistic(list, e), e.id) <==> exists t | t in list :: t.root.id == p
    ensures forall id :: Listed(list, id) ==> Listed(AddOptimistic(list, e), id)
    ensures forall id :: Listed(AddOptimistic(list, e), id) ==> Listed(list, id) || id == e.id
  {
    var r := AddOptimistic(list, e);
    forall i | 0 <= i < |list|
      ensures ThreadOk(parent, r[i]) && (forall id :: Mentions(list[i], id) ==> Mentions(r[i], id))
      ensures forall id :: Mentions(r[i], id) ==> Mentions(list[i], id) || id == e.id
    {
      assert list[i] in list && ThreadOk(parent, list[i]) && !Mentions(list[i], e.id);
      ReplyKeeps(parent, list[i], e);
    }
    forall id | Listed(list, id) ensures Listed(r, id) {
      var i :| 0 <= i < |list| && Mentions(list[i], id);
      assert r[i] in r;
    }
    forall id | Listed(r, id) ensures Listed(list, id) || id == e.id {
      var i :| 0 <= i < |r| && Mentions(r[i], id);
      assert list[i] in list;
    }
    if t :| t in list && t.root.id == p {
      var i :| 0 <= i < |list| && list[i] == t;
      assert r[i] == WithReply(t, e) && r[i] in r;
      assert e in r[i].replies;
      assert Mentions(r[i], e.id);
    } else {
      assert r == list;
    }
  }

  lemma ReplyKeeps(parent: Parents, t: Thread, e: Entry)
    requires ThreadOk(parent, t) && !HasReply(t, e.id)
    ensures parent(e.id) == Some(t.root.id) && t.root.id.Stored? ==> ThreadOk(parent, WithReply(t, e))
    ensures forall id :: Mentions(WithReply(t, e), id) <==> Mentions(t, id) || id == e.id
  {
    var r := WithReply(t, e);
    forall id ensures Mentions(r, id) <==> Mentions(t, id) || id == e.id {
      if x :| x in t.replies && x.id == id {
        assert x in r.replies;
      }
      assert e in r.replies;
    }
    forall i, j | 0 <= i < j < |r.replies| ensures r.replies[i].id != r.replies[j].id {
      assert t.replies[i] in t.replies;
    }
  }

  lemma {:induction false} FilterDistinct(replies: seq<Entry>, keep: Entry -> bool)
    requires forall i, j | 0 <= i < j < |replies| :: replies[i].id != replies[j].id
    ensures forall i, j | 0 <= i < j < |Filter(replies, keep)| :: Filter(replies, keep)[i].id != Filter(replies, keep)[j].id
  {
    if replies != [] {
      var rest := replies[1..];
      FilterDistinct(rest, keep);
      forall k | 0 <= k < |Filter(rest, keep)| ensures Filter(rest, keep)[k].id != replies[0].id {
        assert Filter(rest, keep)[k] in rest;
      }
    }
  }

  lemma {:induction false} FilterRoots(list: Threads, keep: Thread -> bool)
    requires forall i, j | 0 <= i < j < |list| :: list[i].root.id != list[j].root.id
    ensures forall i, j | 0 <= i < j < |Filter(list, keep)| :: Filter(list, keep)[i].root.id != Filter(list, keep)[j].root.id
  {
    if list != [] {
      var rest := list[1..];
      FilterRoots(rest, keep);
      forall k | 0 <= k < |Filter(rest, keep)| ensures Filter(rest, keep)[k].root.id != list[0].root.id {
        assert Filter(rest, keep)[k] in rest;
      }
    }
  }

  /** Dropping one id from distinct ids drops at most one reply. */
  lemma {:induction false} FilterOne(replies: seq<Entry>, id: Id)
    requires forall i, j | 0 <= i < j < |replies| :: replies[i].id != replies[j].id
    ensures var kept := Filter(replies, (r: Entry) => r.id != id);
            |kept| == |replies| - (if HasId(replies, id) then 1 else 0)
  {
    var other := (r: Entry) => r.id != id;
    if replies != [] {
      if replies[0].id == id {
        assert replies[0] in replies;
        FilterAll(replies[1..], other);
      } else {
        FilterOne(replies[1..], id);
      }
    }
  }

  lemma WithoutKeeps(parent: Parents, t: Thread, id: Id)
    requires ThreadOk(parent, t) && t.root.id != id
    ensures ThreadOk(parent, WithoutReply(t, id))
    ensures forall x :: Mentions(WithoutReply(t, id), x) <==> Mentions(t, x) && x != id
  {
    FilterOne(t.replies, id);
    FilterDistinct(t.replies, (r: Entry) => r.id != id);
    var r := WithoutReply(t, id);
    forall x ensures Mentions(r, x) <==> Mentions(t, x) && x != id {
      if e :| e in t.replies && e.id == x && x != id {
        assert e in r.replies;
      }
    }
  }

  /** What is listed after a change made thread by thread. */
  lemma ListedAfter(list: Threads, r: Threads, x: Id, through: Thread -> bool)
    requires |r| == |list| && forall i | 0 <= i < |list| :: Mentions(r[i], x) <==> through(list[i])
    ensures Listed(r, x) <==> exists t | t in list :: through(t)
  {
    if t :| t in list && through(t) {
      var i :| 0 <= i < |list| && list[i] == t;
      assert r[i] in r;
    }
    if t :| t in r && Mentions(t, x) {
      var i :| 0 <= i < |r| && r[i] == t;
      assert list[i] in list;
    }
  }

  /** Taking a comment out removes it and nothing else; a pending root has no replies to take with it. */
  lemma RemoveKeeps(parent: Parents, list: Threads, id: Id)
    requires ListOk(parent, list) && id.Optimistic?
    ensures ListOk(parent, RemoveOptimistic(list, id))
    ensures forall x :: Listed(RemoveOptimistic(list, id), x) <==> Listed(list, x) && x != id
  {
    var kept := Filter(list, (t: Thread) => t.root.id != id);
    FilterRoots(list, (t: Thread) => t.root.id != id);
    forall t | t in kept
      ensures ThreadOk(parent, WithoutReply(t, id))
      ensures forall x :: Mentions(WithoutReply(t, id), x) <==> Mentions(t, x) && x != id
    {
      assert t in list;
      WithoutKeeps(parent, t, id);
    }
    var r := RemoveOptimistic(list, id);
    assert forall i | 0 <= i < |kept| :: kept[i] in kept && r[i] == WithoutReply(kept[i], id);
    forall x ensures Listed(r, x) <==> Listed(list, x) && x != id {
      ListedAfter(kept, r, x, (t: Thread) => Mentions(t, x) && x != id);
      KeptRoots(parent, list, id, x);
    }
  }

  lemma KeptRoots(parent: Parents, list: Threads, id: Id, x: Id)
    requires ListOk(parent, list) && id.Optimistic?
    ensures x != id ==> (Listed(Filter(list, (t: Thread) => t.root.id != id), x) <==> Listed(list, x))
  {
    var kept := Filter(list, (t: Thread) => t.root.id != id);
    if x != id {
      if t :| t in list && Mentions(t, x) {
        assert ThreadOk(parent, t);
        assert t in kept;
      }
      if t :| t in kept && Mentions(t, x) {
        assert t in list;
      }
    }
  }

  lemma SubstituteKeeps(parent: Parents, t: Thread, id: Id, saved: Entry)
    requires ThreadOk(parent, t) && id.Optimistic? && saved.id.Stored? && saved.replyCount == 0
    requires parent(saved.id) == parent(id) && !Mentions(t, saved.id)
    ensures ThreadOk(parent, Substitute(t, id, saved))
    ensures forall x :: Mentions(Substitute(t, id, saved), x) <==>
                        (Mentions(t, x) && x != id) || (x == saved.id && Mentions(t, id))
  {
    var r := Substitute(t, id, saved);
    forall i | 0 <= i < |t.replies| ensures t.replies[i].id != saved.id {
      assert t.replies[i] in t.replies;
    }
    forall x ensures Mentions(r, x) <==> (Mentions(t, x) && x != id) || (x == saved.id && Mentions(t, id)) {
      if e :| e in t.replies && (e.id == x || (e.id == id && x == saved.id)) {
        var i :| 0 <= i < |t.replies| && t.replies[i] == e;
        assert t.root.id != id ==> r.replies[i] in r.replies;
      }
      if e :| e in r.replies && e.id == x {
        var i :| 0 <= i < |r.replies| && r.replies[i] == e;
        assert t.replies[i] in t.replies;
      }
    }
  }

  /**
   * Success: the optimistic comment gives way to the saved one, which is then listed exactly
   * if either was (a refetch may have brought it already); nothing else comes or goes.
   */
  lemma ReplaceKeeps(parent: Parents, list: Threads, id: Id, saved: Entry)
    requires ListOk(parent, list) && id.Optimistic? && saved.id.Stored? && saved.replyCount == 0
    requires parent(saved.id) == parent(id)
    ensures ListOk(parent, ReplaceOptimistic(list, id, saved))
    ensures forall x :: Listed(ReplaceOptimistic(list, id, saved), x) <==>
                        (Listed(list, x) && x != id) || (x == saved.id && Listed(list, id))
  {
    if Listed(list, saved.id) {
      RemoveKeeps(parent, list, id);
    } else {
      var r := ReplaceOptimistic(list, id, saved);
      forall i | 0 <= i < |list|
        ensures ThreadOk(parent, r[i])
        ensures forall x :: Mentions(r[i], x) <==> (Mentions(list[i], x) && x != id) || (x == saved.id && Mentions(list[i], id))
        ensures list[i].root.id != saved.id
      {
        assert list[i] in list;
        SubstituteKeeps(parent, list[i], id, saved);
      }
      forall x ensures Listed(r, x) <==> (Listed(list, x) && x != id) || (x == saved.id && Listed(list, id)) {
        ListedAfter(list, r, x, (t: Thread) => (Mentions(t, x) && x != id) || (x == saved.id && Mentions(t, id)));
      }
    }
  }

  // --- A refetch keeps pending comments ----------------------------------------------------------

  lemma {:induction false} AppendKeeps(parent: Parents, t: Thread, replies: seq<Entry>)
    requires ThreadOk(parent, t) && (replies != [] ==> t.root.id.Stored?)
    requires forall r | r in replies :: parent(r.id) == Some(t.root.id)
    ensures ThreadOk(parent, AppendMissing(t, replies))
    ensures AppendMissing(t, replies).root == t.root.(replyCount := AppendMissing(t, replies).root.replyCount)
    ensures forall x :: Mentions(AppendMissing(t, replies), x) <==> Mentions(t, x) || HasId(replies, x)
    decreases |replies|
  {
    if replies != [] {
      var next := if HasReply(t, replies[0].id) then t else WithReply(t, replies[0]);
      if !HasReply(t, replies[0].id) {
        ReplyKeeps(parent, t, replies[0]);
      }
      AppendKeeps(parent, next, replies[1..]);
      forall x ensures HasId(replies, x) <==> replies[0].id == x || HasId(replies[1..], x) {
        if r :| r in replies && r.id == x {
          assert r == replies[0] || r in replies[1..];
        }
        if r :| r in replies[1..] && r.id == x {
          assert r in replies;
        }
      }
    }
  }

  /** The pending comments of a thread. */
  ghost predicate PendingIn(t: Thread, id: Id) {
    id.Optimistic? && Mentions(t, id)
  }

  lemma PendingOfThread(parent: Parents, t: Thread)
    requires ThreadOk(parent, t)
    ensures t.root.id.Optimistic? ==> PendingReplies(t) == []
    ensures forall r | r in PendingReplies(t) :: parent(r.id) == Some(t.root.id)
    ensures forall x :: PendingIn(t, x) <==>
                        (x == t.root.id && x.Optimistic?) || HasId(PendingReplies(t), x)
  {
    forall x ensures PendingIn(t, x) <==> (x == t.root.id && x.Optimistic?) || HasId(PendingReplies(t), x) {
      if r :| r in t.replies && r.id == x && x.Optimistic? {
        assert r in PendingReplies(t);
      }
    }
  }

  predicate HasRoot(list: Threads, id: Id) {
    exists t | t in list :: t.root.id == id
  }

  /** A thread that is put back whole: replies are pending in it, and the list lacks its root. */
  predicate PutBackWhole(list: Threads, t: Thread) {
    PendingReplies(t) != [] && !HasRoot(list, t.root.id)
  }

  /** What merging one thread lists: all that was listed, what is pending in the thread, and all of it if it is put back whole. */
  lemma MergeThreadKeeps(parent: Parents, list: Threads, previous: Thread)
    requires ListOk(parent, list) && ThreadOk(parent, previous)
    ensures ListOk(parent, MergeThread(list, previous))
    ensures forall x :: Listed(MergeThread(list, previous), x)
                        <==> Listed(list, x) || PendingIn(previous, x) || (Mentions(previous, x) && PutBackWhole(list, previous))
  {
    var index, pending, r := RootIndex(list, previous.root.id), PendingReplies(previous), MergeThread(list, previous);
    PendingOfThread(parent, previous);
    if index >= 0 {
      MergeInto(parent, list, previous, index);
    } else if r != list {
      MergeWhole(list, previous, r);
    }
  }

  lemma MergeWhole(list: Threads, previous: Thread, r: Threads)
    requires r == [previous] + list || r == list + [previous]
    ensures forall t :: t in r <==> t in list || t == previous
    ensures forall x :: Listed(r, x) <==> Listed(list, x) || Mentions(previous, x)
  {
    assert previous in r;
    forall x ensures Listed(r, x) <==> Listed(list, x) || Mentions(previous, x) {
      if t :| t in list && Mentions(t, x) {
        assert t in r;
      }
    }
  }

  /** What is listed once one thread has grown. */
  lemma ListedWithOne(list: Threads, index: nat, grown: Thread, x: Id)
    requires index < |list| && (Mentions(list[index], x) ==> Mentions(grown, x))
    ensures Listed(list[index := grown], x) <==> Listed(list, x) || Mentions(grown, x)
  {
    var r := list[index := grown];
    assert r[index] in r;
    if t :| t in list && Mentions(t, x) {
      var i :| 0 <= i < |list| && list[i] == t;
      assert i != index ==> r[i] == list[i];
      assert r[i] in r;
    }
    if t :| t in r && Mentions(t, x) {
      var i :| 0 <= i < |r| && r[i] == t;
      assert list[i] in list;
    }
  }

  lemma MergeInto(parent: Parents, list: Threads, previous: Thread, index: nat)
    requires ListOk(parent, list) && ThreadOk(parent, previous)
    requires index < |list| && RootIndex(list, previous.root.id) == index
    ensures ListOk(parent, MergeThread(list, previous))
    ensures forall x :: Listed(MergeThread(list, previous), x) <==> Listed(list, x) || PendingIn(previous, x)
  {
    var pending := PendingReplies(previous);
    PendingOfThread(parent, previous);
    assert list[index] in list;
    if pending == [] {
      forall x | PendingIn(previous, x) ensures Listed(list, x) {
        assert Mentions(list[index], x);
      }
    } else {
      var grown := AppendMissing(list[index], pending);
      AppendKeeps(parent, list[index], pending);
      forall x ensures Listed(list[index := grown], x) <==> Listed(list, x) || PendingIn(previous, x) {
        ListedWithOne(list, index, grown, x);
        if x == previous.root.id {
          assert Mentions(list[index], x);
        }
      }
      GrownOk(parent, list, index, grown);
    }
  }

  lemma GrownOk(parent: Parents, list: Threads, index: nat, grown: Thread)
    requires ListOk(parent, list) && index < |list| && ThreadOk(parent, grown) && grown.root.id == list[index].root.id
    ensures ListOk(parent, list[index := grown])
  {
  }

  /** Merging one thread adds no root but its own. */
  lemma MergeThreadRoots(list: Threads, previous: Thread, id: Id)
    requires id != previous.root.id
    ensures HasRoot(MergeThread(list, previous), id) <==> HasRoot(list, id)
  {
    var index, pending, r := RootIndex(list, previous.root.id), PendingReplies(previous), MergeThread(list, previous);
    if index >= 0 && pending != [] {
      SameRoot(list[index], pending);
      forall i | 0 <= i < |list| ensures r[i].root.id == list[i].root.id && r[i] in r && list[i] in list {
      }
    } else if r != list {
      if pending != [] {
        SameRoot(previous, pending);
      }
      forall t | t in list ensures t in r {
        if index < 0 && previous.root.id.Optimistic? {
          var i :| 0 <= i < |list| && list[i] == t;
          assert r[i + 1] == t;
        }
      }
      forall t | t in r ensures t in list || t.root.id == previous.root.id {
      }
    }
  }

  lemma {:induction false} SameRoot(t: Thread, replies: seq<Entry>)
    ensures AppendMissing(t, replies).root.id == t.root.id
    decreases |replies|
  {
    if replies != [] {
      SameRoot(if HasReply(t, replies[0].id) then t else WithReply(t, replies[0]), replies[1..]);
    }
  }

  /** What merging lists beside the server's own: what is pending, and the threads that are put back whole. */
  ghost predicate Preserved(list: Threads, previous: Threads, x: Id) {
    (x.Optimistic? && Listed(previous, x)) || exists t :: t in previous && Mentions(t, x) && PutBackWhole(list, t)
  }

  lemma {:induction false} MergeAllKeeps(parent: Parents, list: Threads, previous: Threads)
    requires ListOk(parent, list) && ListOk(parent, previous)
    ensures ListOk(parent, MergeAll(list, previous))
    ensures forall x :: Listed(MergeAll(list, previous), x) <==> Listed(list, x) || Preserved(list, previous, x)
    decreases |previous|
  {
    if previous != [] {
      var first, rest, next := previous[0], previous[1..], MergeThread(list, previous[0]);
      MergeThreadKeeps(parent, list, first);
      MergeAllKeeps(parent, next, rest);
      forall x ensures Listed(next, x) || Preserved(next, rest, x) <==> Listed(list, x) || Preserved(list, previous, x) {
        PreservedNext(list, previous, x);
      }
    }
  }

  lemma PreservedNext(list: Threads, previous: Threads, x: Id)
    requires previous != [] && forall i, j | 0 <= i < j < |previous| :: previous[i].root.id != previous[j].root.id
    ensures Preserved(list, previous, x)
            <==> PendingIn(previous[0], x) || (Mentions(previous[0], x) && PutBackWhole(list, previous[0]))
                 || Preserved(MergeThread(list, previous[0]), previous[1..], x)
  {
    var first, rest, next := previous[0], previous[1..], MergeThread(list, previous[0]);
    forall t | t in rest ensures t in previous && (PutBackWhole(next, t) <==> PutBackWhole(list, t)) {
      var i :| 0 <= i < |rest| && rest[i] == t;
      assert previous[i + 1] == t && first.root.id != t.root.id;
      MergeThreadRoots(list, first, t.root.id);
    }
    forall t | t in previous ensures t == first || t in rest {
    }
  }

  lemma SortKeeps(parent: Parents, list: Threads)
    requires ListOk(parent, list)
    ensures ListOk(parent, Sort(list, Newer))
    ensures forall x :: Listed(Sort(list, Newer), x) <==> Listed(list, x)
  {
    var r := Sort(list, Newer);
    forall t ensures t in r <==> t in list {
      SameElements(list, r, t);
    }
    PermutedRoots(list, r);
  }

  lemma PermutedRoots(list: Threads, r: Threads)
    requires multiset(list) == multiset(r)
    requires forall i, j | 0 <= i < j < |list| :: list[i].root.id != list[j].root.id
    ensures forall i, j | 0 <= i < j < |r| :: r[i].root.id != r[j].root.id
  {
    forall i, j | 0 <= i < j < |r| ensures r[i].root.id != r[j].root.id {
      SameElements(list, r, r[i]);
      SameElements(list, r, r[j]);
      OnlyOnce(list, r[i]);
      if r[i] == r[j] {
        CountedTwice(r, i, j);
      }
    }
  }

  lemma {:induction false} OnlyOnce(list: Threads, t: Thread)
    requires forall i, j | 0 <= i < j < |list| :: list[i].root.id != list[j].root.id
    requires t in list
    ensures multiset(list)[t] == 1
  {
    assert list == [list[0]] + list[1..];
    if t == list[0] {
      assert t !in list[1..];
    } else {
      OnlyOnce(list[1..], t);
    }
  }

  /**
   * A refetch lists exactly what the server has, every comment still pending, and the threads put back whole: a saved
   * comment the server lacks stays if and only if the server lacks its root too and a reply is pending in its thread.
   */
  lemma RefetchKeeps(parent: Parents, previous: Option<Threads>, server: Threads)
    requires SnapshotOk(parent, server) && (previous.Some? ==> ListOk(parent, previous.value))
    ensures ListOk(parent, PreservePending(previous, server))
    ensures forall x :: Listed(PreservePending(previous, server), x)
                        <==> Listed(server, x) || (previous.Some? && Preserved(server, previous.value, x))
  {
    if previous.Some? {
      MergeAllKeeps(parent, server, previous.value);
      SortKeeps(parent, MergeAll(server, previous.value));
    }
  }

  /** With a list cached before, what a refetch leaves is newest first. */
  lemma RefetchNewestFirst(previous: Option<Threads>, server: Threads)
    requires previous.Some?
    ensures var r := PreservePending(previous, server);
            Sorted(r, Newer) && forall i, j | 0 <= i < j < |r| :: r[i].root.createdAt >= r[j].root.createdAt
  {
    SortSorts(MergeAll(server, previous.value), Newer);
  }

  // --- All interleavings -----------------------------------------------------------------------------

  /** One cached list and the adds whose answer is still to come. */
  datatype State = State(data: Option<Threads>, inFlight: set<Id>, used: set<Id>)

  datatype Step =
    | Mutate(e: Entry)
    | Refetch(server: Threads)
    | Success(id: Id, saved: Entry)
    | Failure(id: Id)

  ghost predicate Legal(parent: Parents, s: State, step: Step) {
    match step
    case Mutate(e) =>
      && e.id.Optimistic? && e.id !in s.used && e.replyCount == 0
      && parent(e.id) == e.parentId && (e.parentId.Some? ==> e.parentId.value.Stored?)
    case Refetch(server) => SnapshotOk(parent, server)
    case Success(id, saved) =>
      id in s.inFlight && saved.id.Stored? && saved.replyCount == 0 && parent(saved.id) == parent(id)
    case Failure(id) => id in s.inFlight
  }

  function Update(data: Option<Threads>, f: Threads -> Threads): Option<Threads> {
    if data.None? then None else Some(f(data.value))
  }

  function Apply(s: State, step: Step): State {
    match step
    case Mutate(e) =>
      State(Update(s.data, (list: Threads) => AddOptimistic(list, e)), s.inFlight + {e.id}, s.used + {e.id})
    case Refetch(server) => s.(data := Some(PreservePending(s.data, server)))
    case Success(id, saved) =>
      State(Update(s.data, (list: Threads) => ReplaceOptimistic(list, id, saved)), s.inFlight - {id}, s.used)
    case Failure(id) =>
      State(Update(s.data, (list: Threads) => RemoveOptimistic(list, id)), s.inFlight - {id}, s.used)
  }

  /** Is `id` in the cached list? */
  ghost predicate Shown(s: State, id: Id) {
    s.data.Some? && Listed(s.data.value, id)
  }

  /** The list is well formed, and what it shows as pending has an answer to come. */
  ghost predicate Inv(parent: Parents, s: State) {
    && s.inFlight <= s.used
    && (forall id | id in s.used :: id.Optimistic?)
    && (s.data.Some? ==> ListOk(parent, s.data.value))
    && (forall id :: Shown(s, id) && id.Optimistic? ==> id in s.inFlight)
  }

  lemma StepKeeps(parent: Parents, s: State, step: Step)
    requires Inv(parent, s) && Legal(parent, s, step)
    ensures Inv(parent, Apply(s, step))
    ensures forall id: Id :: id.Optimistic? && Shown(s, id) && !Settles(step, id) ==> Shown(Apply(s, step), id)
  {
    if s.data.Some? {
      var list := s.data.value;
      match step
      case Mutate(e) =>
        assert !Shown(s, e.id);
        AddKeeps(parent, list, e);
      case Refetch(server) => RefetchStep(parent, s, server);
      case Success(id, saved) =>
        ReplaceKeeps(parent, list, id, saved);
      case Failure(id) =>
        RemoveKeeps(parent, list, id);
    } else if step.Refetch? {
      RefetchStep(parent, s, step.server);
    }
  }

  lemma RefetchStep(parent: Parents, s: State, server: Threads)
    requires Inv(parent, s) && SnapshotOk(parent, server)
    ensures Inv(parent, Apply(s, Refetch(server)))
    ensures forall id: Id :: id.Optimistic? && Shown(s, id) ==> Shown(Apply(s, Refetch(server)), id)
  {
    RefetchKeeps(parent, s.data, server);
    forall id: Id | id.Optimistic? ensures !Listed(server, id) {
    }
  }

  /** The step is the outcome of the add that listed `id`. */
  predicate Settles(step: Step, id: Id) {
    (step.Success? && step.id == id) || (step.Failure? && step.id == id)
  }

  const Start := State(None, {}, {})

  function RunAll(s: State, steps: seq<Step>): State
    decreases |steps|
  {
    if steps == [] then s else RunAll(Apply(s, steps[0]), steps[1..])
  }

  ghost predicate AllLegal(parent: Parents, s: State, steps: seq<Step>)
    decreases |steps|
  {
    steps != [] ==> Legal(parent, s, steps[0]) && AllLegal(parent, Apply(s, steps[0]), steps[1..])
  }

  lemma {:induction false} RunKeeps(parent: Parents, s: State, steps: seq<Step>)
    requires Inv(parent, s) && AllLegal(parent, s, steps)
    ensures Inv(parent, RunAll(s, steps))
    decreases |steps|
  {
    if steps != [] {
      StepKeeps(parent, s, steps[0]);
      RunKeeps(parent, Apply(s, steps[0]), steps[1..]);
    }
  }

  /** In every run of adds, refetches, successes and failures the list stays well formed. */
  lemma EveryRun(parent: Parents, steps: seq<Step>)
    requires AllLegal(parent, Start, steps)
    ensures Inv(parent, RunAll(Start, steps))
  {
    RunKeeps(parent, Start, steps);
  }

  /** A listed pending comment stays listed through any steps but its own outcome. */
  lemma {:induction false} PendingStaysListed(parent: Parents, s: State, steps: seq<Step>, id: Id)
    requires Inv(parent, s) && AllLegal(parent, s, steps) && id.Optimistic? && Shown(s, id)
    requires forall step | step in steps :: !Settles(step, id)
    ensures Shown(RunAll(s, steps), id)
    decreases |steps|
  {
    if steps != [] {
      StepKeeps(parent, s, steps[0]);
      PendingStaysListed(parent, Apply(s, steps[0]), steps[1..], id);
    }
  }

  /**
   * An add that was listed, any steps but its outcome, then success: the saved comment is listed
   * (once, since the list is well formed) and the optimistic one is not.
   */
  lemma SuccessLeavesSavedOnce(parent: Parents, s: State, e: Entry, steps: seq<Step>, saved: Entry)
    requires Inv(parent, s) && Legal(parent, s, Mutate(e)) && Shown(Apply(s, Mutate(e)), e.id)
    requires AllLegal(parent, Apply(s, Mutate(e)), steps) && forall step | step in steps :: !Settles(step, e.id)
    requires Legal(parent, RunAll(Apply(s, Mutate(e)), steps), Success(e.id, saved))
    ensures var r := Apply(RunAll(Apply(s, Mutate(e)), steps), Success(e.id, saved));
            && Inv(parent, r) && Shown(r, saved.id) && !Shown(r, e.id)
  {
    StepKeeps(parent, s, Mutate(e));
    var before := Apply(s, Mutate(e));
    RunKeeps(parent, before, steps);
    PendingStaysListed(parent, before, steps, e.id);
    var now := RunAll(before, steps);
    StepKeeps(parent, now, Success(e.id, saved));
    ReplaceKeeps(parent, now.data.value, e.id, saved);
  }

  /** A failed add with nothing in between leaves the list exactly as it was. */
  lemma FailureUndoesAdd(parent: Parents, list: Threads, e: Entry)
    requires ListOk(parent, list) && !Listed(list, e.id)
    ensures RemoveOptimistic(AddOptimistic(list, e), e.id) == list
  {
    var added := AddOptimistic(list, e);
    var other := (t: Thread) => t.root.id != e.id;
    forall t | t in list ensures t.root.id != e.id && WithoutReply(t, e.id) == t
                                 && WithoutReply(WithReply(t, e), e.id) == t {
      assert !Mentions(t, e.id) && ThreadOk(parent, t);
      ReplyUndone(t, e);
    }
    match e.parentId
    case None =>
      FilterAll(list, other);
      assert Filter(added, other) == list;
      assert RemoveOptimistic(added, e.id) == list;
    case Some(p) =>
      forall t | t in added ensures other(t) {
        var i :| 0 <= i < |added| && added[i] == t;
        assert list[i] in list;
      }
      FilterAll(added, other);
      var r := RemoveOptimistic(added, e.id);
      forall i | 0 <= i < |list| ensures r[i] == list[i] {
        assert list[i] in list;
      }
  }

  lemma ReplyUndone(t: Thread, e: Entry)
    requires !HasReply(t, e.id) && t.root.replyCount >= 0
    ensures WithoutReply(t, e.id) == t
    ensures WithoutReply(WithReply(t, e), e.id) == t
  {
    var other := (r: Entry) => r.id != e.id;
    FilterAll(t.replies, other);
    FilterConcat(t.replies, [e], other);
    assert Filter([e], other) == [];
    assert e in t.replies + [e];
    assert HasReply(WithReply(t, e), e.id);
  }
}
