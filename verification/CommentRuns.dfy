/**
 * Adding, resolving and refetching the comments of a file in any order, on both cached lists
 * (live/src/hooks/use-comments.ts, the query and the two mutations).
 */
module CommentRuns {
  import opened Wrappers
  import opened Sorting
  import opened Comments
  import opened CommentResolve

  // --- The state and what can happen ------------------------------------------------------

  /** A resolve or reopen that the server has not answered yet, with what it remembers for its rollback. */
  datatype Pending = Pending(id: Id, before: Remembered)

  /** The two lists, the adds whose answer is still to come, the ids handed out so far, and the open changes. */
  datatype World = World(c: Caches, inFlight: set<Id>, used: set<Id>, changes: map<nat, Pending>)

  const Fresh := World(Caches(None, None), {}, {}, map[])

  datatype Turn =
    | Add(e: Entry)
    | Saved(id: Id, saved: Entry)
    | NotSaved(id: Id)
    | FetchOpen(server: Threads)
    | FetchAll(server: Threads)
    | Mark(ticket: nat, id: Id, resolved: bool)
    | Accepted(ticket: nat)
    | Rejected(ticket: nat)

  ghost predicate Possible(parent: Parents, w: World, turn: Turn) {
    match turn
    case Add(e) =>
      && e.id.Optimistic? && e.id !in w.used && e.replyCount == 0
      && parent(e.id) == e.parentId && (e.parentId.Some? ==> e.parentId.value.Stored?)
    case Saved(id, saved) =>
      id in w.inFlight && saved.id.Stored? && saved.replyCount == 0 && parent(saved.id) == parent(id)
    case NotSaved(id) => id in w.inFlight
    case FetchOpen(server) => SnapshotOk(parent, server)
    case FetchAll(server) => SnapshotOk(parent, server)
    case Mark(ticket, _, _) => ticket !in w.changes
    case Accepted(ticket) => ticket in w.changes
    case Rejected(ticket) => ticket in w.changes
  }

  function Replacing(id: Id, saved: Entry): Threads -> Threads {
    (list: Threads) => ReplaceOptimistic(list, id, saved)
  }

  function Removing(id: Id): Threads -> Threads {
    (list: Threads) => RemoveOptimistic(list, id)
  }

  function OnBoth(c: Caches, f: Threads -> Threads): Caches {
    Caches(Update(c.open, f), Update(c.all, f))
  }

  /** Nothing is rolled back for a change that is not open. */
  function After(w: World, turn: Turn): World {
    match turn
    case Add(e) => w.(c := AddBoth(w.c, e), inFlight := w.inFlight + {e.id}, used := w.used + {e.id})
    case Saved(id, saved) => w.(c := OnBoth(w.c, Replacing(id, saved)), inFlight := w.inFlight - {id})
    case NotSaved(id) => w.(c := OnBoth(w.c, Removing(id)), inFlight := w.inFlight - {id})
    case FetchOpen(server) => w.(c := w.c.(open := Some(PreservePending(w.c.open, server))))
    case FetchAll(server) => w.(c := w.c.(all := Some(PreservePending(w.c.all, server))))
    case Mark(ticket, id, resolved) =>
      w.(c := Resolve(w.c, id, resolved), changes := w.changes[ticket := Pending(id, Remember(w.c, id))])
    case Accepted(ticket) => w.(changes := w.changes - {ticket})
    case Rejected(ticket) =>
      if ticket !in w.changes then w
      else w.(c := RollBack(w.c, w.changes[ticket].id, w.changes[ticket].before), changes := w.changes - {ticket})
  }

  // --- What is shown ---------------------------------------------------------------------------

  ghost predicate In(data: Option<Threads>, x: Id) {
    data.Some? && Listed(data.value, x)
  }

  ghost predicate Shown(c: Caches, x: Id) {
    In(c.open, x) || In(c.all, x)
  }

  predicate Tells(t: Option<Thread>, x: Id) {
    t.Some? && Mentions(t.value, x)
  }

  /** Some open change remembers the comment. */
  ghost predicate Kept(w: World, x: Id) {
    exists k :: k in w.changes && (Tells(w.changes[k].before.open, x) || Tells(w.changes[k].before.all, x))
  }

  /** A comment that is shown as pending although its answer has come. */
  ghost predicate Phantom(w: World, x: Id) {
    x.Optimistic? && Shown(w.c, x) && x !in w.inFlight
  }

  ghost predicate NoPhantom(w: World) {
    forall x :: !Phantom(w, x)
  }

  ghost predicate CacheOk(parent: Parents, data: Option<Threads>) {
    data.Some? ==> ListOk(parent, data.value)
  }

  ghost predicate BeforeOk(parent: Parents, t: Option<Thread>) {
    t.Some? ==> ThreadOk(parent, t.value)
  }

  /** Both lists and every remembered thread are well formed, and nothing pending is in them that was not handed out. */
  ghost predicate Inv(parent: Parents, w: World) {
    && CacheOk(parent, w.c.open) && CacheOk(parent, w.c.all)
    && (forall k | k in w.changes :: BeforeOk(parent, w.changes[k].before.open) && BeforeOk(parent, w.changes[k].before.all))
    && (forall x: Id :: x.Optimistic? && (Shown(w.c, x) || Kept(w, x)) ==> x in w.used)
    && w.inFlight <= w.used && forall x | x in w.used :: x.Optimistic?
  }

  // --- Flags and order leave the comments alone ---------------------------------------------------

  lemma FlagKeeps(parent: Parents, t: Thread, id: Id, resolved: bool)
    requires ThreadOk(parent, t)
    ensures ThreadOk(parent, FlagThread(t, id, resolved)) && FlagThread(t, id, resolved).root.id == t.root.id
    ensures forall x :: Mentions(FlagThread(t, id, resolved), x) <==> Mentions(t, x)
  {
    SameIds(parent, t, FlagThread(t, id, resolved));
  }

  lemma RestoredKeeps(parent: Parents, now: Thread, id: Id, before: Thread)
    requires ThreadOk(parent, now)
    ensures ThreadOk(parent, RestoreFlags(now, id, before)) && RestoreFlags(now, id, before).root.id == now.root.id
    ensures forall x :: Mentions(RestoreFlags(now, id, before), x) <==> Mentions(now, x)
  {
    SameIds(parent, now, RestoreFlags(now, id, before));
  }

  /** A thread is as well formed as another with the same ids and the same count. */
  lemma SameIds(parent: Parents, t: Thread, r: Thread)
    requires ThreadOk(parent, t) && r.root.id == t.root.id && r.root.replyCount == t.root.replyCount
    requires |r.replies| == |t.replies| && forall i | 0 <= i < |t.replies| :: r.replies[i].id == t.replies[i].id
    ensures ThreadOk(parent, r) && forall x :: Mentions(r, x) <==> Mentions(t, x)
  {
    forall i | 0 <= i < |t.replies| ensures t.replies[i] in t.replies && r.replies[i] in r.replies {
    }
    forall x ensures HasReply(r, x) <==> HasReply(t, x) {
      SameReplies(t.replies, r.replies, x);
      SameReplies(r.replies, t.replies, x);
    }
  }

  lemma SameReplies(a: seq<Entry>, b: seq<Entry>, x: Id)
    requires |a| == |b| && forall i | 0 <= i < |a| :: a[i].id == b[i].id
    ensures HasId(a, x) ==> HasId(b, x)
  {
    if r :| r in a && r.id == x {
      var i :| 0 <= i < |a| && a[i] == r;
      assert b[i] in b;
    }
  }

  lemma MapKeeps(parent: Parents, list: Threads, f: Thread -> Thread)
    requires ListOk(parent, list)
    requires forall t | t in list :: ThreadOk(parent, f(t)) && f(t).root.id == t.root.id
    requires forall t, x | t in list :: Mentions(f(t), x) <==> Mentions(t, x)
    ensures ListOk(parent, Map(list, f)) && forall x :: Listed(Map(list, f), x) <==> Listed(list, x)
  {
    var r := Map(list, f);
    forall i | 0 <= i < |list| ensures list[i] in list && r[i] in r && r[i] == f(list[i]) {
    }
    forall x ensures Listed(r, x) <==> Listed(list, x) {
      ListedAfter(list, r, x, (t: Thread) => Mentions(t, x));
    }
  }

  lemma MarkKeeps(parent: Parents, list: Threads, id: Id, resolved: bool)
    requires ListOk(parent, list)
    ensures ListOk(parent, WithResolved(list, id, resolved))
    ensures forall x :: Listed(WithResolved(list, id, resolved), x) <==> Listed(list, x)
  {
    forall t | t in list
      ensures ThreadOk(parent, FlagThread(t, id, resolved)) && FlagThread(t, id, resolved).root.id == t.root.id
      ensures forall x :: Mentions(FlagThread(t, id, resolved), x) <==> Mentions(t, x)
    {
      FlagKeeps(parent, t, id, resolved);
    }
    MapKeeps(parent, list, (t: Thread) => FlagThread(t, id, resolved));
  }

  lemma DropKeeps(parent: Parents, list: Threads, id: Id)
    requires ListOk(parent, list)
    ensures ListOk(parent, DropRoot(list, id)) && forall x :: Listed(DropRoot(list, id), x) ==> Listed(list, x)
    ensures forall t | t in DropRoot(list, id) :: t.root.id != id
  {
    FilterRoots(list, (t: Thread) => t.root.id != id);
    forall x | Listed(DropRoot(list, id), x) ensures Listed(list, x) {
      var t :| t in DropRoot(list, id) && Mentions(t, x);
      assert t in list;
    }
  }

  /** Sorting in a thread whose root is not there. */
  lemma SortInKeeps(parent: Parents, list: Threads, t: Thread)
    requires ListOk(parent, list) && ThreadOk(parent, t) && forall s | s in list :: s.root.id != t.root.id
    ensures ListOk(parent, Sort([t] + list, Newer))
    ensures forall x :: Listed(Sort([t] + list, Newer), x) <==> Listed(list, x) || Mentions(t, x)
  {
    var r := [t] + list;
    forall i, j | 0 <= i < j < |r| ensures r[i].root.id != r[j].root.id {
      assert r[j] == list[j - 1] && list[j - 1] in list;
    }
    MergeWhole(list, t, r);
    SortKeeps(parent, r);
  }

  // --- One list at a time ---------------------------------------------------------------------------

  /** The list of unresolved threads after a change shows nothing that was in neither list. */
  lemma UnresolvedKeeps(parent: Parents, list: Threads, id: Id, resolved: bool, all: Option<Threads>)
    requires ListOk(parent, list) && CacheOk(parent, all)
    ensures ListOk(parent, WithUnresolved(list, id, resolved, all))
    ensures forall x :: Listed(WithUnresolved(list, id, resolved, all), x) ==> Listed(list, x) || In(all, x)
  {
    var updated := WithResolved(list, id, resolved);
    MarkKeeps(parent, list, id, resolved);
    if resolved {
      DropKeeps(parent, updated, id);
    } else if FindRoot(updated, id).None? && all.Some? && FindRoot(all.value, id).Some? {
      ReopenedKeeps(parent, updated, id, all.value);
    }
  }

  lemma ReopenedKeeps(parent: Parents, updated: Threads, id: Id, all: Threads)
    requires ListOk(parent, updated) && ListOk(parent, all) && FindRoot(updated, id).None? && FindRoot(all, id).Some?
    ensures var t := FindRoot(all, id).value;
            var r := Sort([Thread(Flagged(t.root, false), t.replies)] + updated, Newer);
            ListOk(parent, r) && forall x :: Listed(r, x) ==> Listed(updated, x) || Listed(all, x)
  {
    var t := FindRoot(all, id).value;
    var reopened := Thread(Flagged(t.root, false), t.replies);
    RootIndexed(all, id);
    SameIds(parent, t, reopened);
    SortInKeeps(parent, updated, reopened);
  }

  /** The thread that a rollback finds, in the list itself or else in the other one. */
  function Found(list: Threads, other: Option<Threads>, root: Id): Option<Thread> {
    if FindRoot(list, root).Some? then FindRoot(list, root)
    else if other.Some? then FindRoot(other.value, root) else None
  }

  /** A rollback that finds nothing puts back the thread it remembers; otherwise nothing comes in that was in neither list. */
  lemma RestoreKeeps(parent: Parents, list: Threads, id: Id, before: Option<Thread>, other: Option<Threads>)
    requires ListOk(parent, list) && CacheOk(parent, other) && BeforeOk(parent, before)
    ensures ListOk(parent, RestoreThread(list, id, before, other))
    ensures before.None? || Found(list, other, before.value.root.id).Some? ==>
              forall x :: Listed(RestoreThread(list, id, before, other), x) ==> Listed(list, x) || In(other, x)
    ensures before.Some? && Found(list, other, before.value.root.id).None? ==>
              && (forall x :: Listed(RestoreThread(list, id, before, other), x) ==> Listed(list, x) || Mentions(before.value, x))
              && (forall x :: Mentions(before.value, x) ==> Listed(RestoreThread(list, id, before, other), x))
  {
    match before
    case None => DropKeeps(parent, list, id);
    case Some(t) =>
      var now := Found(list, other, t.root.id);
      DropKeeps(parent, list, t.root.id);
      if now.Some? {
        FoundIsThere(list, other, t.root.id);
        RestoredKeeps(parent, now.value, id, t);
        SortInKeeps(parent, DropRoot(list, t.root.id), RestoreFlags(now.value, id, t));
      } else {
        SortInKeeps(parent, DropRoot(list, t.root.id), t);
      }
  }

  lemma FoundIsThere(list: Threads, other: Option<Threads>, root: Id)
    requires Found(list, other, root).Some?
    ensures var t := Found(list, other, root).value;
            t.root.id == root && (t in list || (other.Some? && t in other.value))
  {
  }

  // --- One turn -----------------------------------------------------------------------------------------

  lemma BothAdded(parent: Parents, w: World, e: Entry)
    requires Inv(parent, w) && Possible(parent, w, Add(e))
    ensures CacheOk(parent, AddBoth(w.c, e).open) && CacheOk(parent, AddBoth(w.c, e).all)
    ensures forall x :: Shown(AddBoth(w.c, e), x) ==> Shown(w.c, x) || x == e.id
    ensures forall x :: Shown(w.c, x) ==> Shown(AddBoth(w.c, e), x)
  {
    assert !Shown(w.c, e.id);
    if w.c.open.Some? {
      AddKeeps(parent, w.c.open.value, e);
    }
    if w.c.all.Some? {
      AddKeeps(parent, w.c.all.value, e);
    }
  }

  lemma BothReplaced(parent: Parents, w: World, id: Id, saved: Entry)
    requires Inv(parent, w) && Possible(parent, w, Saved(id, saved))
    ensures var c := OnBoth(w.c, Replacing(id, saved));
            && CacheOk(parent, c.open) && CacheOk(parent, c.all)
            && forall x: Id :: x.Optimistic? ==> (Shown(c, x) <==> Shown(w.c, x) && x != id)
  {
    if w.c.open.Some? {
      ReplaceKeeps(parent, w.c.open.value, id, saved);
    }
    if w.c.all.Some? {
      ReplaceKeeps(parent, w.c.all.value, id, saved);
    }
  }

  lemma BothRemoved(parent: Parents, w: World, id: Id)
    requires Inv(parent, w) && Possible(parent, w, NotSaved(id))
    ensures var c := OnBoth(w.c, Removing(id));
            && CacheOk(parent, c.open) && CacheOk(parent, c.all)
            && forall x: Id :: x.Optimistic? ==> (Shown(c, x) <==> Shown(w.c, x) && x != id)
  {
    if w.c.open.Some? {
      RemoveKeeps(parent, w.c.open.value, id);
    }
    if w.c.all.Some? {
      RemoveKeeps(parent, w.c.all.value, id);
    }
  }

  lemma Fetched(parent: Parents, data: Option<Threads>, server: Threads)
    requires CacheOk(parent, data) && SnapshotOk(parent, server)
    ensures ListOk(parent, PreservePending(data, server))
    ensures forall x: Id :: x.Optimistic? ==> (Listed(PreservePending(data, server), x) <==> In(data, x))
  {
    RefetchKeeps(parent, data, server);
    forall x: Id | x.Optimistic? ensures !Listed(server, x) {
    }
  }

  lemma BothMarked(parent: Parents, c: Caches, id: Id, resolved: bool)
    requires CacheOk(parent, c.open) && CacheOk(parent, c.all)
    ensures CacheOk(parent, Resolve(c, id, resolved).open) && CacheOk(parent, Resolve(c, id, resolved).all)
    ensures forall x :: Shown(Resolve(c, id, resolved), x) ==> Shown(c, x)
  {
    if c.open.Some? {
      UnresolvedKeeps(parent, c.open.value, id, resolved, c.all);
    }
    if c.all.Some? {
      MarkKeeps(parent, c.all.value, id, resolved);
    }
  }

  /** What is remembered was listed. */
  lemma RecallListed(parent: Parents, data: Option<Threads>, id: Id)
    requires CacheOk(parent, data)
    ensures BeforeOk(parent, Recall(data, id)) && forall x :: Tells(Recall(data, id), x) ==> In(data, x)
  {
  }

  /** One list is rolled back to a thread that neither list has any more and that shows a comment whose answer has come. */
  ghost predicate Stale(inFlight: set<Id>, data: Option<Threads>, other: Option<Threads>, before: Option<Thread>) {
    && data.Some? && before.Some? && Found(data.value, other, before.value.root.id).None?
    && exists x: Id :: x.Optimistic? && Mentions(before.value, x) && x !in inFlight
  }

  lemma ListRolledBack(parent: Parents, inFlight: set<Id>, data: Option<Threads>, other: Option<Threads>, id: Id, before: Option<Thread>,
                       r: Option<Threads>)
    requires CacheOk(parent, data) && CacheOk(parent, other) && BeforeOk(parent, before)
    requires r == Update(data, (list: Threads) => RestoreThread(list, id, before, other))
    ensures CacheOk(parent, r) && forall x :: In(r, x) ==> In(data, x) || In(other, x) || Tells(before, x)
    ensures !Stale(inFlight, data, other, before) ==>
              forall x: Id :: x.Optimistic? && In(r, x) ==> In(data, x) || In(other, x) || x in inFlight
    ensures Stale(inFlight, data, other, before) ==> exists x: Id :: x.Optimistic? && In(r, x) && x !in inFlight
  {
    if data.Some? {
      RestoreKeeps(parent, data.value, id, before, other);
    }
  }

  /** The rejection of a change whose rollback is stale for one of the lists. */
  ghost predicate StaleRollback(w: World, turn: Turn) {
    && turn.Rejected? && turn.ticket in w.changes
    && var before := w.changes[turn.ticket].before;
       Stale(w.inFlight, w.c.open, w.c.all, before.open) || Stale(w.inFlight, w.c.all, w.c.open, before.all)
  }

  lemma BothRolledBack(parent: Parents, w: World, ticket: nat)
    requires Inv(parent, w) && ticket in w.changes
    ensures var r := After(w, Rejected(ticket)).c;
            CacheOk(parent, r.open) && CacheOk(parent, r.all) && forall x :: Shown(r, x) ==> Shown(w.c, x) || Kept(w, x)
  {
    var p, r := w.changes[ticket], After(w, Rejected(ticket)).c;
    ListRolledBack(parent, w.inFlight, w.c.open, w.c.all, p.id, p.before.open, r.open);
    ListRolledBack(parent, w.inFlight, w.c.all, w.c.open, p.id, p.before.all, r.all);
  }

  lemma RolledBackPending(parent: Parents, w: World, ticket: nat)
    requires Inv(parent, w) && ticket in w.changes
    ensures var r := After(w, Rejected(ticket));
            if StaleRollback(w, Rejected(ticket)) then !NoPhantom(r) else Accounted(w, r)
  {
    var p, r := w.changes[ticket], After(w, Rejected(ticket));
    ListRolledBack(parent, w.inFlight, w.c.open, w.c.all, p.id, p.before.open, r.c.open);
    ListRolledBack(parent, w.inFlight, w.c.all, w.c.open, p.id, p.before.all, r.c.all);
    if StaleRollback(w, Rejected(ticket)) {
      var x: Id :| x.Optimistic? && (In(r.c.open, x) || In(r.c.all, x)) && x !in w.inFlight;
      assert Phantom(r, x);
    }
  }

  /** What any turn can newly show as pending. */
  ghost predicate Brought(w: World, turn: Turn, x: Id) {
    (turn.Add? && x == turn.e.id) || (turn.Rejected? && Kept(w, x))
  }

  lemma TurnShows(parent: Parents, w: World, turn: Turn)
    requires Inv(parent, w) && Possible(parent, w, turn)
    ensures CacheOk(parent, After(w, turn).c.open) && CacheOk(parent, After(w, turn).c.all)
    ensures forall x: Id :: x.Optimistic? && Shown(After(w, turn).c, x) ==> Shown(w.c, x) || Brought(w, turn, x)
  {
    match turn
    case Add(e) => BothAdded(parent, w, e);
    case Saved(id, saved) => BothReplaced(parent, w, id, saved);
    case NotSaved(id) => BothRemoved(parent, w, id);
    case FetchOpen(server) => Fetched(parent, w.c.open, server);
    case FetchAll(server) => Fetched(parent, w.c.all, server);
    case Mark(_, id, resolved) => BothMarked(parent, w.c, id, resolved);
    case Accepted(_) =>
    case Rejected(ticket) => BothRolledBack(parent, w, ticket);
  }

  lemma TurnKeepsChanges(parent: Parents, w: World, turn: Turn)
    requires Inv(parent, w) && Possible(parent, w, turn)
    ensures var r := After(w, turn);
            && (forall k | k in r.changes :: BeforeOk(parent, r.changes[k].before.open) && BeforeOk(parent, r.changes[k].before.all))
            && (forall x :: Kept(r, x) ==> Kept(w, x) || Shown(w.c, x))
  {
    if turn.Mark? {
      RecallListed(parent, w.c.open, turn.id);
      RecallListed(parent, w.c.all, turn.id);
    }
  }

  /** Every turn keeps both lists well formed. */
  lemma TurnKeeps(parent: Parents, w: World, turn: Turn)
    requires Inv(parent, w) && Possible(parent, w, turn)
    ensures Inv(parent, After(w, turn))
  {
    TurnShows(parent, w, turn);
    TurnKeepsChanges(parent, w, turn);
  }

  /** What is shown is in flight, or was shown before and has not been answered since. */
  ghost predicate Accounted(w: World, r: World) {
    forall x: Id :: x.Optimistic? && Shown(r.c, x) ==> x in r.inFlight || (Shown(w.c, x) && x !in w.inFlight)
  }

  lemma NoNewPhantom(w: World, r: World)
    requires NoPhantom(w) && Accounted(w, r)
    ensures NoPhantom(r)
  {
    forall x ensures !Phantom(r, x) {
      assert !Phantom(w, x);
    }
  }

  lemma QuietTurn(parent: Parents, w: World, turn: Turn)
    requires Inv(parent, w) && Possible(parent, w, turn) && !turn.Rejected?
    ensures Accounted(w, After(w, turn))
  {
    match turn
    case Add(e) => BothAdded(parent, w, e);
    case Saved(id, saved) => BothReplaced(parent, w, id, saved);
    case NotSaved(id) => BothRemoved(parent, w, id);
    case FetchOpen(server) => Fetched(parent, w.c.open, server);
    case FetchAll(server) => Fetched(parent, w.c.all, server);
    case Mark(_, id, resolved) => BothMarked(parent, w.c, id, resolved);
    case Accepted(_) =>
  }

  lemma RollbackPhantoms(parent: Parents, w: World, ticket: nat)
    requires Inv(parent, w) && ticket in w.changes && NoPhantom(w)
    ensures NoPhantom(After(w, Rejected(ticket))) <==> !StaleRollback(w, Rejected(ticket))
  {
    RolledBackPending(parent, w, ticket);
    if !StaleRollback(w, Rejected(ticket)) {
      NoNewPhantom(w, After(w, Rejected(ticket)));
    }
  }

  /** Without phantoms before, there is one afterwards exactly if the turn is a stale rollback. */
  lemma TurnPhantoms(parent: Parents, w: World, turn: Turn)
    requires Inv(parent, w) && Possible(parent, w, turn) && NoPhantom(w)
    ensures NoPhantom(After(w, turn)) <==> !StaleRollback(w, turn)
  {
    if turn.Rejected? {
      RollbackPhantoms(parent, w, turn.ticket);
    } else {
      QuietTurn(parent, w, turn);
      NoNewPhantom(w, After(w, turn));
    }
  }

  // --- Every run --------------------------------------------------------------------------------------------

  ghost predicate AllPossible(parent: Parents, w: World, turns: seq<Turn>)
    decreases |turns|
  {
    turns != [] ==> Possible(parent, w, turns[0]) && AllPossible(parent, After(w, turns[0]), turns[1..])
  }

  function RunTurns(w: World, turns: seq<Turn>): World
    decreases |turns|
  {
    if turns == [] then w else RunTurns(After(w, turns[0]), turns[1..])
  }

  lemma {:induction false} RunKeepsInv(parent: Parents, w: World, turns: seq<Turn>)
    requires Inv(parent, w) && AllPossible(parent, w, turns)
    ensures Inv(parent, RunTurns(w, turns))
    decreases |turns|
  {
    if turns != [] {
      TurnKeeps(parent, w, turns[0]);
      RunKeepsInv(parent, After(w, turns[0]), turns[1..]);
    }
  }

  /** In every order of adds, fetches, changes and answers both lists stay well formed, in particular without any comment twice. */
  lemma EveryRun(parent: Parents, turns: seq<Turn>)
    requires AllPossible(parent, Fresh, turns)
    ensures Inv(parent, RunTurns(Fresh, turns))
  {
    RunKeepsInv(parent, Fresh, turns);
  }

  /** No phantom is shown after any of the turns. */
  ghost predicate NeverPhantom(w: World, turns: seq<Turn>)
    decreases |turns|
  {
    NoPhantom(w) && (turns != [] ==> NeverPhantom(After(w, turns[0]), turns[1..]))
  }

  ghost predicate NeverStale(w: World, turns: seq<Turn>)
    decreases |turns|
  {
    turns != [] ==> !StaleRollback(w, turns[0]) && NeverStale(After(w, turns[0]), turns[1..])
  }

  /** A run shows a phantom at some point if and only if one of its rejections is a stale rollback. */
  lemma {:induction false} PhantomsOfRun(parent: Parents, w: World, turns: seq<Turn>)
    requires Inv(parent, w) && AllPossible(parent, w, turns) && NoPhantom(w)
    ensures NeverPhantom(w, turns) <==> NeverStale(w, turns)
    decreases |turns|
  {
    if turns != [] {
      TurnKeeps(parent, w, turns[0]);
      TurnPhantoms(parent, w, turns[0]);
      if NoPhantom(After(w, turns[0])) {
        PhantomsOfRun(parent, After(w, turns[0]), turns[1..]);
      }
    }
  }

  /** Only another change or its rejection can take a phantom away: no fetch and no answer to an add does. */
  predicate LeavesPhantoms(turn: Turn) {
    !turn.Mark? && !turn.Rejected?
  }

  lemma {:induction false} PhantomStays(parent: Parents, w: World, turns: seq<Turn>, x: Id)
    requires Inv(parent, w) && AllPossible(parent, w, turns) && Phantom(w, x)
    requires forall turn | turn in turns :: LeavesPhantoms(turn)
    ensures Phantom(RunTurns(w, turns), x)
    decreases |turns|
  {
    if turns != [] {
      assert turns[0] in turns;
      TurnKeeps(parent, w, turns[0]);
      PhantomKept(parent, w, turns[0], x);
      PhantomStays(parent, After(w, turns[0]), turns[1..], x);
    }
  }

  lemma PhantomKept(parent: Parents, w: World, turn: Turn, x: Id)
    requires Inv(parent, w) && Possible(parent, w, turn) && Phantom(w, x) && LeavesPhantoms(turn)
    ensures Phantom(After(w, turn), x)
  {
    match turn
    case Add(e) =>
      assert x in w.used;
      BothAdded(parent, w, e);
    case Saved(id, saved) => BothReplaced(parent, w, id, saved);
    case NotSaved(id) => BothRemoved(parent, w, id);
    case FetchOpen(server) => Fetched(parent, w.c.open, server);
    case FetchAll(server) => Fetched(parent, w.c.all, server);
    case Accepted(_) =>
  }

  /**
   * A phantom: with only the unresolved list loaded, a thread with a pending reply is resolved, the reply is saved,
   * and the rejection puts the thread back as it was.
   */
  lemma SavedReplyComesBackPending(parent: Parents, t: Thread, o: Entry, saved: Entry)
    requires ThreadOk(parent, t) && o in t.replies && o.id.Optimistic?
    requires saved.id.Stored? && saved.replyCount == 0 && parent(saved.id) == parent(o.id)
    ensures var w := World(Caches(Some([t]), None), {o.id}, {o.id}, map[]);
            var turns := [Mark(0, t.root.id, true), Saved(o.id, saved), Rejected(0)];
            && AllPossible(parent, w, turns)
            && RunTurns(w, turns).c == w.c && Phantom(RunTurns(w, turns), o.id)
  {
    var w := World(Caches(Some([t]), None), {o.id}, {o.id}, map[]);
    var a, b, c := Mark(0, t.root.id, true), Saved(o.id, saved), Rejected(0);
    var remembered := map[0 := Pending(t.root.id, Remembered(Some(t), None))];
    MarkedAlone(t);
    assert After(w, a) == World(Caches(Some([]), None), {o.id}, {o.id}, remembered);
    NothingReplaced(After(w, a), o.id, saved);
    assert After(After(w, a), b).changes == remembered;
    RolledBackAlone(t);
    ThreeTurns(parent, w, a, b, c);
    assert [t][0] == t && Mentions(t, o.id);
  }

  lemma NothingReplaced(w: World, id: Id, saved: Entry)
    requires w.c == Caches(Some([]), None)
    ensures After(w, Saved(id, saved)) == w.(inFlight := w.inFlight - {id})
  {
  }

  lemma ThreeTurns(parent: Parents, w: World, a: Turn, b: Turn, c: Turn)
    requires Possible(parent, w, a) && Possible(parent, After(w, a), b) && Possible(parent, After(After(w, a), b), c)
    ensures AllPossible(parent, w, [a, b, c]) && RunTurns(w, [a, b, c]) == After(After(After(w, a), b), c)
  {
    var w1, w2 := After(w, a), After(After(w, a), b);
    OneTurn(parent, w2, c, []);
    OneTurn(parent, w1, b, [c]);
    OneTurn(parent, w, a, [b, c]);
    assert [b] + [c] == [b, c] && [a] + [b, c] == [a, b, c] && [c] + [] == [c];
  }

  lemma OneTurn(parent: Parents, w: World, turn: Turn, more: seq<Turn>)
    requires Possible(parent, w, turn) && AllPossible(parent, After(w, turn), more)
    ensures AllPossible(parent, w, [turn] + more)
    ensures RunTurns(w, [turn] + more) == RunTurns(After(w, turn), more)
  {
    assert ([turn] + more)[1..] == more;
  }

}
