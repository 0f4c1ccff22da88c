/**
 * The cache of drive image URLs, which owns object URLs and must revoke each exactly once
 * (live/src/lib/drive-image-cache.ts).
 */
module ImageCache {
  import opened Wrappers

  type Url = string
  type Key = string
  type TimerId = nat

  /** A cached value: a mint in flight, or an entry. An absent expiry is infinite. */
  datatype Value = Pending | Entry(url: Url, expiresAt: Option<int>, owned: bool)

  const MIN_FRESH_MS := 5 * 60 * 1000

  /**
   * The fields of the cache, and what the browser knows: the timers that are running, the URLs
   * revoked so far, and (for the proofs) every owned URL ever cached.
   */
  datatype State = State(entries: map<Key, Value>, holds: map<Url, int>, retired: set<Url>, idle: map<Url, TimerId>,
                         timers: map<TimerId, Url>, nextTimer: TimerId, revoked: multiset<Url>, known: set<Url>)

  const Init := State(map[], map[], {}, map[], map[], 0, multiset{}, {})

  // --- What each method does to the state -------------------------------------------

  predicate Owns(entries: map<Key, Value>, key: Key, url: Url) {
    key in entries && entries[key].Entry? && entries[key].owned && entries[key].url == url
  }

  predicate OwnsSome(entries: map<Key, Value>, key: Key) {
    key in entries && entries[key].Entry? && entries[key].owned
  }

  /** The owned URLs that are cached. */
  ghost function Cached(entries: map<Key, Value>): (r: set<Url>)
    ensures forall key, url :: Owns(entries, key, url) ==> url in r
    ensures forall url | url in r :: exists key :: Owns(entries, key, url)
  {
    var r := set key | key in entries && OwnsSome(entries, key) :: entries[key].url;
    assert forall url | url in r :: exists key :: Owns(entries, key, url) by {
      forall url | url in r ensures exists key :: Owns(entries, key, url) {
        var key :| key in entries && OwnsSome(entries, key) && entries[key].url == url;
        assert Owns(entries, key, url);
      }
    }
    r
  }

  function Revoke(s: State, url: Url): State {
    s.(revoked := s.revoked + multiset{url})
  }

  function CancelIdle(s: State, url: Url): State {
    if url in s.idle then s.(timers := s.timers - {s.idle[url]}, idle := s.idle - {url}) else s
  }

  ghost function ScheduleIdle(s: State, url: Url): State {
    if url !in Cached(s.entries) then s
    else
      var t := CancelIdle(s, url);
      t.(idle := t.idle[url := t.nextTimer], timers := t.timers[t.nextTimer := url], nextTimer := t.nextTimer + 1)
  }

  function Hold(s: State, url: Url): State {
    var t := CancelIdle(s, url);
    t.(holds := t.holds[url := (if url in t.holds then t.holds[url] else 0) + 1])
  }

  ghost function Release(s: State, url: Url): State {
    var count := (if url in s.holds then s.holds[url] else 0) - 1;
    if count > 0 then s.(holds := s.holds[url := count])
    else
      var t := s.(holds := s.holds - {url});
      if url in t.retired then Revoke(t.(retired := t.retired - {url}), url) else ScheduleIdle(t, url)
  }

  function Lookup(s: State, key: Key): Option<Value> {
    if key in s.entries then Some(s.entries[key]) else None
  }

  function Retire(s: State, previous: Option<Value>, next: Option<Value>): State {
    if previous.None? || previous.value.Pending? || !previous.value.owned then s
    else if next.Some? && next.value.Entry? && next.value.url == previous.value.url then s
    else
      var url := previous.value.url;
      var t := CancelIdle(s, url);
      if url in t.holds then t.(retired := t.retired + {url}) else Revoke(t, url)
  }

  ghost function Put(s: State, key: Key, value: Value): State {
    var r := Retire(s, Lookup(s, key), Some(value));
    var t := r.(entries := r.entries[key := value],
                known := if value.Entry? && value.owned then r.known + {value.url} else r.known);
    if value.Entry? && value.url !in t.holds then ScheduleIdle(t, value.url) else t
  }

  function Delete(s: State, key: Key): State {
    var r := Retire(s, Lookup(s, key), None);
    r.(entries := r.entries - {key})
  }

  /** The callback of an idle timer. */
  ghost function Fire(s: State, timer: TimerId): State
    requires timer in s.timers
  {
    var url := s.timers[timer];
    var t := s.(timers := s.timers - {timer}, idle := s.idle - {url});
    if url !in Cached(t.entries) || url in t.holds then t
    else
      var key :| Owns(t.entries, key, url);
      Revoke(t.(entries := t.entries - {key}), url)
  }

  // --- Runs ---------------------------------------------------------------------------

  datatype Step = DoHold(url: Url) | DoRelease(url: Url) | DoPut(key: Key, value: Value) | DoDelete(key: Key) | DoFire(timer: TimerId)

  /**
   * What callers keep to: only URLs that still work are held; an owned URL is new when first
   * cached, and cached again only over itself; URLs that are not owned are never owned ones;
   * only running timers fire.
   */
  ghost predicate Legal(s: State, step: Step) {
    match step
    case DoHold(url) => url !in s.revoked
    case DoRelease(_) => true
    case DoPut(key, value) =>
      value.Entry? ==> value.url !in s.known || (value.owned && Owns(s.entries, key, value.url))
    case DoDelete(_) => true
    case DoFire(timer) => timer in s.timers
  }

  ghost function Apply(s: State, step: Step): State
    requires Legal(s, step)
  {
    match step
    case DoHold(url) => Hold(s, url)
    case DoRelease(url) => Release(s, url)
    case DoPut(key, value) => Put(s, key, value)
    case DoDelete(key) => Delete(s, key)
    case DoFire(timer) => Fire(s, timer)
  }

  /** `s` can be reached from an empty cache. */
  ghost predicate Run(steps: seq<Step>, s: State)
    decreases |steps|
  {
    if steps == [] then s == Init
    else
      var n := |steps| - 1;
      exists before :: Run(steps[..n], before) && Legal(before, steps[n]) && Apply(before, steps[n]) == s
  }

  // --- The invariant ----------------------------------------------------------------------

  ghost predicate UniqueOwners(entries: map<Key, Value>) {
    forall a, b, url :: Owns(entries, a, url) && Owns(entries, b, url) ==> a == b
  }

  /** Each known owned URL is in exactly one of three places: cached, retired with a holder, or revoked. */
  ghost predicate Places(s: State) {
    var cached := Cached(s.entries);
    && (forall url :: url in s.known <==> url in cached || url in s.retired || url in s.revoked)
    && cached !! s.retired
    && (forall url | url in s.revoked :: url !in cached && url !in s.retired)
    && s.retired <= s.holds.Keys
  }

  /** A revoked URL was revoked once and has no holder. */
  ghost predicate Revocations(s: State) {
    && (forall url | url in s.revoked :: s.revoked[url] == 1 && url !in s.holds)
    && (forall url | url in s.holds :: s.holds[url] >= 1)
  }

  /** The running timers are exactly those recorded, one a URL. */
  ghost predicate Timers(idle: map<Url, TimerId>, timers: map<TimerId, Url>, next: TimerId) {
    && (forall url | url in idle :: idle[url] in timers && timers[idle[url]] == url)
    && (forall t | t in timers :: t < next && timers[t] in idle && idle[timers[t]] == t)
  }

  ghost predicate Inv(s: State) {
    && UniqueOwners(s.entries)
    && Places(s)
    && Revocations(s)
    && Timers(s.idle, s.timers, s.nextTimer)
    && s.idle.Keys == Cached(s.entries) - s.holds.Keys
  }

  // --- Every step keeps it --------------------------------------------------------------------

  lemma CancelKeepsTimers(s: State, url: Url)
    requires Timers(s.idle, s.timers, s.nextTimer)
    ensures var r := CancelIdle(s, url);
            && Timers(r.idle, r.timers, r.nextTimer)
            && r.idle.Keys == s.idle.Keys - {url}
            && r == s.(idle := r.idle, timers := r.timers)
  {
  }

  lemma ScheduleKeepsTimers(s: State, url: Url)
    requires Timers(s.idle, s.timers, s.nextTimer)
    ensures var r := ScheduleIdle(s, url);
            && Timers(r.idle, r.timers, r.nextTimer)
            && r.idle.Keys == s.idle.Keys + (Cached(s.entries) * {url})
            && r == s.(idle := r.idle, timers := r.timers, nextTimer := r.nextTimer)
  {
    CancelKeepsTimers(s, url);
  }

  /** Dropping a key drops just the URL it owned. */
  lemma CachedWithout(entries: map<Key, Value>, key: Key)
    requires UniqueOwners(entries)
    ensures UniqueOwners(entries - {key})
    ensures Cached(entries - {key})
            == Cached(entries) - (if key in entries && entries[key].Entry? && entries[key].owned then {entries[key].url} else {})
  {
    var rest := entries - {key};
    forall k, url ensures Owns(rest, k, url) <==> Owns(entries, k, url) && k != key {
    }
    forall url | url in Cached(rest) ensures url in Cached(entries) && !Owns(entries, key, url) {
      var k :| Owns(rest, k, url);
    }
    forall url | url in Cached(entries) && !Owns(entries, key, url) ensures url in Cached(rest) {
      var k :| Owns(entries, k, url);
      assert Owns(rest, k, url);
    }
  }

  /** Storing a value adds just the URL it owns, provided no other key owns it. */
  lemma CachedWith(entries: map<Key, Value>, key: Key, value: Value)
    requires UniqueOwners(entries) && key !in entries
    requires value.Entry? && value.owned ==> value.url !in Cached(entries)
    ensures UniqueOwners(entries[key := value])
    ensures Cached(entries[key := value])
            == Cached(entries) + (if value.Entry? && value.owned then {value.url} else {})
  {
    var more := entries[key := value];
    forall k, url ensures Owns(more, k, url)
                          <==> (k == key && value.Entry? && value.owned && value.url == url) || (k != key && Owns(entries, k, url)) {
    }
    forall url | url in Cached(entries) ensures url in Cached(more) {
      var k :| Owns(entries, k, url);
      assert Owns(more, k, url);
    }
    if value.Entry? && value.owned {
      assert Owns(more, key, value.url);
    }
  }

  lemma HoldKeeps(s: State, url: Url)
    requires Inv(s) && url !in s.revoked
    ensures Inv(Hold(s, url))
  {
    CancelKeepsTimers(s, url);
  }

  /** Everything but the timers is as it should be, and only `url` may lack one. */
  lemma ScheduleRestores(s: State, url: Url)
    requires UniqueOwners(s.entries) && Places(s) && Revocations(s) && Timers(s.idle, s.timers, s.nextTimer)
    requires s.idle.Keys + (Cached(s.entries) * {url}) == Cached(s.entries) - s.holds.Keys
    ensures Inv(ScheduleIdle(s, url))
    ensures ScheduleIdle(s, url).revoked == s.revoked
  {
    ScheduleKeepsTimers(s, url);
  }

  lemma ReleaseKeeps(s: State, url: Url)
    requires Inv(s)
    ensures Inv(Release(s, url))
    ensures forall u | u in Release(s, url).revoked && u !in s.revoked :: u == url && u in s.retired && s.holds[u] == 1
  {
    var count := (if url in s.holds then s.holds[url] else 0) - 1;
    if count <= 0 {
      if url in s.retired {
        LastReleaseRevokes(s, url);
      } else {
        LastReleaseSchedules(s, url);
      }
    } else {
      assert s.holds[url := count].Keys == s.holds.Keys;
    }
  }

  lemma LastReleaseSchedules(s: State, url: Url)
    requires Inv(s) && url !in s.retired && (url in s.holds ==> s.holds[url] == 1)
    ensures Inv(Release(s, url)) && Release(s, url).revoked == s.revoked
  {
    var t := s.(holds := s.holds - {url});
    assert t.retired <= t.holds.Keys;
    ScheduleRestores(t, url);
  }

  lemma LastReleaseRevokes(s: State, url: Url)
    requires Inv(s) && url in s.retired && s.holds[url] == 1
    ensures Inv(Release(s, url))
  {
    var r := Release(s, url);
    assert r == s.(holds := s.holds - {url}, retired := s.retired - {url}, revoked := s.revoked + multiset{url});
    assert Cached(s.entries) - r.holds.Keys == Cached(s.entries) - s.holds.Keys;
  }

  /** What retiring the value under a key does, before the key is given away. */
  lemma RetireEffect(s: State, key: Key, next: Option<Value>)
    requires Inv(s)
    ensures var r, previous := Retire(s, Lookup(s, key), next), Lookup(s, key);
            var dropped := previous.Some? && previous.value.Entry? && previous.value.owned
                           && !(next.Some? && next.value.Entry? && next.value.url == previous.value.url);
            && Timers(r.idle, r.timers, r.nextTimer)
            && r == s.(idle := r.idle, timers := r.timers, retired := r.retired, revoked := r.revoked)
            && (!dropped ==> r == s)
            && (dropped ==>
                  var url := previous.value.url;
                  && r.idle.Keys == s.idle.Keys - {url}
                  && r.retired == s.retired + (if url in s.holds then {url} else {})
                  && r.revoked == s.revoked + (if url in s.holds then multiset{} else multiset{url}))
  {
    var previous := Lookup(s, key);
    if previous.Some? && previous.value.Entry? {
      CancelKeepsTimers(s, previous.value.url);
    }
  }

  /** Taking a key's owned URL out of the cache leaves it retired if it is held, and revoked otherwise. */
  lemma DropKeeps(s: State, key: Key, r: State)
    requires Inv(s) && OwnsSome(s.entries, key)
    requires var url := s.entries[key].url;
             && r == s.(idle := r.idle, timers := r.timers, entries := s.entries - {key},
                        retired := s.retired + (if url in s.holds then {url} else {}),
                        revoked := s.revoked + (if url in s.holds then multiset{} else multiset{url}))
             && r.idle.Keys == s.idle.Keys - {url}
             && Timers(r.idle, r.timers, r.nextTimer)
    ensures Inv(r)
  {
    var url := s.entries[key].url;
    assert Owns(s.entries, key, url);
    CachedWithout(s.entries, key);
    assert url in Cached(s.entries) && url !in s.revoked;
    assert Places(r);
    assert Revocations(r);
  }

  lemma DeleteKeeps(s: State, key: Key)
    requires Inv(s)
    ensures Inv(Delete(s, key))
  {
    RetireEffect(s, key, None);
    CachedWithout(s.entries, key);
    if OwnsSome(s.entries, key) {
      DropKeeps(s, key, Delete(s, key));
    }
  }

  /** The state once a value is stored, before its timer is started. */
  ghost function Stored(s: State, key: Key, value: Value): State {
    s.(entries := s.entries[key := value],
       known := if value.Entry? && value.owned then s.known + {value.url} else s.known)
  }

  /** The end of storing: an entry nobody holds gets its timer. */
  ghost function Settle(s: State, value: Value): State {
    if value.Entry? && value.url !in s.holds then ScheduleIdle(s, value.url) else s
  }

  lemma PutInSteps(s: State, key: Key, value: Value)
    ensures Put(s, key, value) == Settle(Stored(Retire(s, Lookup(s, key), Some(value)), key, value), value)
  {
  }

  /** Everything but the timer of a value just stored is as it should be. */
  ghost predicate Unsettled(s: State, value: Value) {
    && UniqueOwners(s.entries) && Places(s) && Revocations(s) && Timers(s.idle, s.timers, s.nextTimer)
    && var missing := if value.Entry? && value.url !in s.holds then {value.url} else {};
       s.idle.Keys + (Cached(s.entries) * missing) == Cached(s.entries) - s.holds.Keys
  }

  lemma SettleRestores(s: State, value: Value)
    requires Unsettled(s, value)
    ensures Inv(Settle(s, value)) && Settle(s, value).revoked == s.revoked
  {
    if value.Entry? && value.url !in s.holds {
      ScheduleRestores(s, value.url);
    }
  }

  /** Storing a value that owns nothing, or a new URL, under a free key. */
  lemma AddUnsettled(s: State, key: Key, value: Value)
    requires Inv(s) && key !in s.entries && (value.Entry? ==> value.url !in s.known)
    ensures Unsettled(Stored(s, key, value), value)
  {
    CachedWith(s.entries, key, value);
    AddPlaces(s, key, value);
  }

  lemma AddPlaces(s: State, key: Key, value: Value)
    requires Inv(s) && key !in s.entries && (value.Entry? ==> value.url !in s.known)
    ensures Places(Stored(s, key, value)) && Revocations(Stored(s, key, value))
  {
    CachedWith(s.entries, key, value);
  }

  lemma AddKeeps(s: State, key: Key, value: Value)
    requires Inv(s) && key !in s.entries && (value.Entry? ==> value.url !in s.known)
    ensures Inv(Settle(Stored(s, key, value), value))
    ensures Settle(Stored(s, key, value), value).revoked == s.revoked
  {
    AddUnsettled(s, key, value);
    SettleRestores(Stored(s, key, value), value);
  }

  lemma RetireForNew(s: State, key: Key, value: Value)
    requires Inv(s) && (value.Entry? ==> value.url !in s.known)
    ensures Retire(s, Lookup(s, key), Some(value)) == Retire(s, Lookup(s, key), None)
  {
    if OwnsSome(s.entries, key) {
      assert Owns(s.entries, key, s.entries[key].url);
    }
  }

  lemma StoredOver(r: State, key: Key, value: Value)
    ensures Stored(r, key, value) == Stored(r.(entries := r.entries - {key}), key, value)
  {
    assert (r.entries - {key})[key := value] == r.entries[key := value];
  }

  /** Storing over another value retires it as deleting it would. */
  lemma PutIsDeleteThenAdd(s: State, key: Key, value: Value)
    requires Inv(s) && (value.Entry? ==> value.url !in s.known)
    ensures Put(s, key, value) == Settle(Stored(Delete(s, key), key, value), value)
  {
    PutInSteps(s, key, value);
    RetireForNew(s, key, value);
    StoredOver(Retire(s, Lookup(s, key), None), key, value);
  }

  lemma AgainUnsettled(s: State, key: Key, value: Value)
    requires Inv(s) && value.Entry? && value.owned && Owns(s.entries, key, value.url)
    ensures Unsettled(Stored(s, key, value), value)
  {
    CachedWithout(s.entries, key);
    CachedWith(s.entries - {key}, key, value);
    StoredOver(s, key, value);
    assert Cached(Stored(s, key, value).entries) == Cached(s.entries);
  }

  /** Storing an owned URL over itself restarts its timer. */
  lemma AgainKeeps(s: State, key: Key, value: Value)
    requires Inv(s) && value.Entry? && value.owned && Owns(s.entries, key, value.url)
    ensures Inv(Put(s, key, value))
    ensures Put(s, key, value).revoked == s.revoked
  {
    PutInSteps(s, key, value);
    assert Retire(s, Lookup(s, key), Some(value)) == s;
    AgainUnsettled(s, key, value);
    SettleRestores(Stored(s, key, value), value);
  }

  lemma PutKeeps(s: State, key: Key, value: Value)
    requires Inv(s) && Legal(s, DoPut(key, value))
    ensures Inv(Put(s, key, value))
  {
    if value.Entry? && value.owned && Owns(s.entries, key, value.url) {
      AgainKeeps(s, key, value);
    } else {
      PutIsDeleteThenAdd(s, key, value);
      DeleteKeeps(s, key);
      RetireEffect(s, key, None);
      AddKeeps(Delete(s, key), key, value);
    }
  }

  /** A running timer finds the key that owns its URL. */
  lemma FireFinds(s: State, timer: TimerId) returns (key: Key)
    requires Inv(s) && timer in s.timers
    ensures Owns(s.entries, key, s.timers[timer]) && s.timers[timer] !in s.holds
    ensures Fire(s, timer) == s.(timers := s.timers - {timer}, idle := s.idle - {s.timers[timer]}, entries := s.entries - {key},
                                 revoked := s.revoked + multiset{s.timers[timer]})
  {
    var url := s.timers[timer];
    var t := s.(timers := s.timers - {timer}, idle := s.idle - {url});
    assert url in s.idle.Keys;
    key :| Owns(t.entries, key, url) && Fire(s, timer) == Revoke(t.(entries := t.entries - {key}), url);
  }

  /** An idle timer evicts its URL: it is revoked, no longer cached, and nothing else changes place. */
  lemma FireEvicts(s: State, timer: TimerId)
    requires Inv(s) && timer in s.timers
    ensures Inv(Fire(s, timer))
    ensures var r, url := Fire(s, timer), s.timers[timer];
            && r.revoked == s.revoked + multiset{url}
            && Cached(r.entries) == Cached(s.entries) - {url}
            && r.retired == s.retired && r.holds == s.holds
  {
    var key := FireFinds(s, timer);
    CachedWithout(s.entries, key);
  }

  lemma StepKeeps(s: State, step: Step)
    requires Inv(s) && Legal(s, step)
    ensures Inv(Apply(s, step))
  {
    match step
    case DoHold(url) => HoldKeeps(s, url);
    case DoRelease(url) => ReleaseKeeps(s, url);
    case DoPut(key, value) => PutKeeps(s, key, value);
    case DoDelete(key) => DeleteKeeps(s, key);
    case DoFire(timer) => FireEvicts(s, timer);
  }

  /** What is newly revoked was in use until then: owned, not revoked before, and without a holder afterwards. */
  ghost predicate RevokesOnce(s: State, after: State, url: Url) {
    && s.revoked <= after.revoked
    && (url in after.revoked && url !in s.revoked ==>
          && after.revoked[url] == 1
          && (url in Cached(s.entries) || url in s.retired)
          && url !in after.holds)
  }

  lemma StepRevokesOnce(s: State, step: Step, url: Url)
    requires Inv(s) && Legal(s, step)
    ensures RevokesOnce(s, Apply(s, step), url)
  {
    StepKeeps(s, step);
    match step
    case DoHold(u) => CancelKeepsTimers(s, u);
    case DoRelease(u) => ReleaseRevokes(s, u, url);
    case DoPut(key, value) => PutRevokes(s, key, value);
    case DoDelete(key) => RetireEffect(s, key, None);
    case DoFire(timer) => FireRevokes(s, timer, url);
  }

  lemma ReleaseRevokes(s: State, u: Url, url: Url)
    requires Inv(s) && Inv(Release(s, u))
    ensures RevokesOnce(s, Release(s, u), url)
  {
    ReleaseKeeps(s, u);
    ScheduleKeepsTimers(s.(holds := s.holds - {u}), u);
  }

  lemma FireRevokes(s: State, timer: TimerId, url: Url)
    requires Inv(s) && timer in s.timers && Inv(Fire(s, timer))
    ensures RevokesOnce(s, Fire(s, timer), url)
  {
    FireEvicts(s, timer);
    assert s.timers[timer] in s.idle.Keys;
  }

  lemma PutRevokes(s: State, key: Key, value: Value)
    requires Inv(s) && Legal(s, DoPut(key, value))
    ensures s.revoked <= Put(s, key, value).revoked
    ensures forall u | u in Put(s, key, value).revoked && u !in s.revoked :: u in Cached(s.entries)
  {
    if value.Entry? && value.owned && Owns(s.entries, key, value.url) {
      AgainKeeps(s, key, value);
    } else {
      PutIsDeleteThenAdd(s, key, value);
      DeleteKeeps(s, key);
      RetireEffect(s, key, None);
      AddKeeps(Delete(s, key), key, value);
      if OwnsSome(s.entries, key) {
        assert Owns(s.entries, key, s.entries[key].url);
      }
    }
  }

  /** The lifetime of object URLs, over every run. */
  lemma {:induction false} EveryRun(steps: seq<Step>, s: State)
    requires Run(steps, s)
    ensures Inv(s)
    decreases |steps|
  {
    if steps != [] {
      var n := |steps| - 1;
      var before :| Run(steps[..n], before) && Legal(before, steps[n]) && Apply(before, steps[n]) == s;
      EveryRun(steps[..n], before);
      StepKeeps(before, steps[n]);
    }
  }

  /**
   * In every run: no URL with a holder is revoked, none is revoked twice, and every owned URL not
   * revoked is either cached or retired with a holder, never both; a cached one without a holder
   * has a timer running that will evict it.
   */
  lemma ObjectUrlLifetimes(steps: seq<Step>, s: State, url: Url)
    requires Run(steps, s)
    ensures url in s.holds ==> url !in s.revoked
    ensures s.revoked[url] <= 1
    ensures url in s.known && url !in s.revoked ==>
              ((url in Cached(s.entries) && url !in s.retired) || (url !in Cached(s.entries) && url in s.retired && url in s.holds))
    ensures url in Cached(s.entries) && url !in s.holds ==>
              exists t :: t in s.timers && s.timers[t] == url && url in Fire(s, t).revoked
  {
    EveryRun(steps, s);
    if url in Cached(s.entries) && url !in s.holds {
      assert url in s.idle.Keys;
      FireEvicts(s, s.idle[url]);
    }
  }

  /** Nothing leaks: once nothing is held and no timer is left to fire, every owned URL has been revoked, once. */
  lemma NothingLeaks(steps: seq<Step>, s: State, url: Url)
    requires Run(steps, s) && s.holds == map[] && s.timers == map[] && url in s.known
    ensures s.revoked[url] == 1
  {
    EveryRun(steps, s);
    assert s.idle.Keys == {};
  }

  /** Holds minus releases, a release without a hold counting for nothing. */
  function Balance(steps: seq<Step>, url: Url): nat {
    if steps == [] then 0
    else
      var before, last := Balance(steps[..|steps| - 1], url), steps[|steps| - 1];
      if last == DoHold(url) then before + 1
      else if last == DoRelease(url) && before > 0 then before - 1
      else before
  }

  ghost predicate Holders(s: State, url: Url, n: nat) {
    if n == 0 then url !in s.holds else url in s.holds && s.holds[url] == n
  }

  /** Retiring a value and starting a timer leave the values and the holds alone. */
  lemma RetireAlone(s: State, previous: Option<Value>, next: Option<Value>)
    ensures Retire(s, previous, next).entries == s.entries && Retire(s, previous, next).holds == s.holds
  {
  }

  lemma ScheduleAlone(s: State, url: Url)
    ensures ScheduleIdle(s, url).entries == s.entries && ScheduleIdle(s, url).holds == s.holds
  {
  }

  lemma PutAlone(s: State, key: Key, value: Value)
    ensures Put(s, key, value).entries == s.entries[key := value] && Put(s, key, value).holds == s.holds
  {
    PutInSteps(s, key, value);
    var r := Retire(s, Lookup(s, key), Some(value));
    RetireAlone(s, Lookup(s, key), Some(value));
    if value.Entry? {
      ScheduleAlone(Stored(r, key, value), value.url);
    }
  }

  lemma FireAlone(s: State, timer: TimerId)
    requires timer in s.timers
    ensures Fire(s, timer).holds == s.holds
    ensures forall key | key in Fire(s, timer).entries :: key in s.entries && s.entries[key] == Fire(s, timer).entries[key]
  {
  }

  lemma ReleaseAlone(s: State, url: Url)
    ensures Release(s, url).entries == s.entries
    ensures Release(s, url).holds == if url in s.holds && s.holds[url] > 1 then s.holds[url := s.holds[url] - 1] else s.holds - {url}
  {
    ScheduleAlone(s.(holds := s.holds - {url}), url);
  }

  lemma StepHolders(s: State, step: Step, after: State, url: Url, n: nat)
    requires Legal(s, step) && Apply(s, step) == after && Holders(s, url, n)
    ensures Holders(after, url, if step == DoHold(url) then n + 1 else if step == DoRelease(url) && n > 0 then n - 1 else n)
  {
    match step
    case DoHold(_) =>
    case DoRelease(u) => ReleaseAlone(s, u);
    case DoPut(key, value) => PutAlone(s, key, value);
    case DoDelete(key) => RetireAlone(s, Lookup(s, key), None);
    case DoFire(timer) => FireAlone(s, timer);
  }

  /** The holders counted are those of the history: every hold not released yet, and no others. */
  lemma {:induction false} HoldsBalance(steps: seq<Step>, s: State, url: Url)
    requires Run(steps, s)
    ensures Holders(s, url, Balance(steps, url))
    decreases |steps|
  {
    if steps != [] {
      var n := |steps| - 1;
      var before := LastStep(steps, s);
      HoldsBalance(steps[..n], before, url);
      StepHolders(before, steps[n], s, url, Balance(steps[..n], url));
    }
  }

  predicate Touches(step: Step, key: Key) {
    (step.DoPut? || step.DoDelete?) && step.key == key
  }

  /** The value under a key changes only by storing, deleting or evicting it. */
  lemma StepEntries(s: State, step: Step, after: State, key: Key)
    requires Legal(s, step) && Apply(s, step) == after && key in after.entries
    ensures !Touches(step, key) ==> key in s.entries && s.entries[key] == after.entries[key]
    ensures Touches(step, key) ==> step == DoPut(key, after.entries[key])
  {
    match step
    case DoHold(_) =>
    case DoRelease(u) => ReleaseAlone(s, u);
    case DoPut(k, value) => PutAlone(s, k, value);
    case DoDelete(k) => RetireAlone(s, Lookup(s, k), None);
    case DoFire(timer) => FireAlone(s, timer);
  }

  lemma LastStep(steps: seq<Step>, s: State) returns (before: State)
    requires Run(steps, s) && steps != []
    ensures Run(steps[..|steps| - 1], before) && Legal(before, steps[|steps| - 1]) && Apply(before, steps[|steps| - 1]) == s
  {
    before :| Run(steps[..|steps| - 1], before) && Legal(before, steps[|steps| - 1]) && Apply(before, steps[|steps| - 1]) == s;
  }

  /** What the last step of a run did to the value under a key. */
  lemma LastEntries(steps: seq<Step>, s: State, key: Key) returns (before: State)
    requires Run(steps, s) && steps != [] && key in s.entries
    ensures Run(steps[..|steps| - 1], before)
    ensures !Touches(steps[|steps| - 1], key) ==> key in before.entries && before.entries[key] == s.entries[key]
    ensures Touches(steps[|steps| - 1], key) ==> steps[|steps| - 1] == DoPut(key, s.entries[key])
  {
    before := LastStep(steps, s);
    StepEntries(before, steps[|steps| - 1], s, key);
  }

  ghost predicate UntouchedSince(steps: seq<Step>, i: nat, key: Key) {
    forall j | i < j < |steps| :: !Touches(steps[j], key)
  }

  lemma UntouchedLonger(steps: seq<Step>, i: nat, key: Key)
    requires steps != [] && UntouchedSince(steps[..|steps| - 1], i, key) && !Touches(steps[|steps| - 1], key)
    ensures UntouchedSince(steps, i, key)
  {
    forall j | i < j < |steps| ensures !Touches(steps[j], key) {
      if j < |steps| - 1 {
        assert steps[..|steps| - 1][j] == steps[j];
      }
    }
  }

  /** What is cached under a key is the last value stored there, and it was not deleted since. */
  lemma {:induction false} CachedIsLastStored(steps: seq<Step>, s: State, key: Key) returns (i: nat)
    requires Run(steps, s) && key in s.entries
    ensures i < |steps| && steps[i] == DoPut(key, s.entries[key])
    ensures UntouchedSince(steps, i, key)
    decreases |steps|
  {
    assert steps != [];
    var before := LastEntries(steps, s, key);
    i := |steps| - 1;
    if !Touches(steps[i], key) {
      i := CachedIsLastStored(steps[..|steps| - 1], before, key);
      UntouchedLonger(steps, i, key);
    }
  }

  // --- The class ----------------------------------------------------------------------------

  /** The first field group is the cache's own; the second is the browser's. */
  class DriveImageCache {
    var entries: map<Key, Value>
    var holds: map<Url, int>
    var retired: set<Url>
    var idle: map<Url, TimerId>

    var timers: map<TimerId, Url>
    var nextTimer: TimerId
    ghost var revoked: multiset<Url>
    ghost var known: set<Url>

    ghost function Model(): State
      reads this
    {
      State(entries, holds, retired, idle, timers, nextTimer, revoked, known)
    }

    constructor ()
      ensures Model() == Init && Inv(Model())
    {
      entries, holds, retired, idle := map[], map[], {}, map[];
      timers, nextTimer, revoked, known := map[], 0, multiset{}, {};
    }

    /** `URL.revokeObjectURL`: freeing a URL that somebody holds, or freeing one twice, is not allowed. */
    ghost method RevokeObjectURL(url: Url)
      requires url !in revoked && url !in holds
      modifies `revoked
      ensures revoked == old(revoked) + multiset{url}
    {
      revoked := revoked + multiset{url};
    }

    method CancelIdleTimer(url: Url)
      modifies `idle, `timers
      ensures Model() == CancelIdle(old(Model()), url)
    {
      if url in idle {
        timers := timers - {idle[url]};
        idle := idle - {url};
      }
    }

    /** Scans the entries for the key that owns `url`. */
    method OwnerKey(url: Url) returns (owner: Option<Key>)
      ensures owner.Some? ==> Owns(entries, owner.value, url)
      ensures owner.None? ==> url !in Cached(entries)
    {
      var keys := entries.Keys;
      while keys != {}
        invariant keys <= entries.Keys
        invariant forall key | key in entries && key !in keys :: !Owns(entries, key, url)
      {
        var key :| key in keys;
        if Owns(entries, key, url) {
          return Some(key);
        }
        keys := keys - {key};
      }
      owner := None;
    }

    method StartIdleTimer(url: Url)
      modifies `idle, `timers, `nextTimer
      ensures Model() == ScheduleIdle(old(Model()), url)
    {
      var owner := OwnerKey(url);
      if owner.None? {
        return;
      }
      CancelIdleTimer(url);
      idle := idle[url := nextTimer];
      timers := timers[nextTimer := url];
      nextTimer := nextTimer + 1;
    }

    method Hold(url: Url)
      requires Inv(Model()) && Legal(Model(), DoHold(url))
      modifies this
      ensures Model() == Apply(old(Model()), DoHold(url)) && Inv(Model())
    {
      HoldKeeps(Model(), url);
      CancelIdleTimer(url);
      holds := holds[url := (if url in holds then holds[url] else 0) + 1];
    }

    method Release(url: Url)
      requires Inv(Model())
      modifies this
      ensures Model() == Apply(old(Model()), DoRelease(url)) && Inv(Model())
    {
      ghost var before := Model();
      assert url in retired ==> url !in revoked;
      ReleaseOne(url);
      ReleaseKeeps(before, url);
    }

    method ReleaseOne(url: Url)
      requires url in retired ==> url !in revoked
      modifies this
      ensures Model() == Apply(old(Model()), DoRelease(url))
    {
      var count := (if url in holds then holds[url] else 0) - 1;
      if count > 0 {
        holds := holds[url := count];
        return;
      }
      holds := holds - {url};
      if url in retired {
        retired := retired - {url};
        RevokeObjectURL(url);
      } else {
        StartIdleTimer(url);
      }
    }

    /** Revokes an owned URL that is leaving the cache, now or when its last holder lets go. */
    method RetireValue(previous: Option<Value>, next: Option<Value>)
      requires previous.Some? && previous.value.Entry? && previous.value.owned ==> previous.value.url !in revoked
      modifies `idle, `timers, `retired, `revoked
      ensures Model() == Retire(old(Model()), previous, next)
    {
      if previous.None? || previous.value.Pending? || !previous.value.owned {
        return;
      }
      var url := previous.value.url;
      if next.Some? && next.value.Entry? && next.value.url == url {
        return;
      }
      CancelIdleTimer(url);
      if url in holds {
        retired := retired + {url};
      } else {
        RevokeObjectURL(url);
      }
    }

    method Set(key: Key, value: Value)
      requires Inv(Model()) && Legal(Model(), DoPut(key, value))
      modifies this
      ensures Model() == Apply(old(Model()), DoPut(key, value)) && Inv(Model())
    {
      PutKeeps(Model(), key, value);
      assert OwnsSome(entries, key) ==> Owns(entries, key, entries[key].url);
      PutInSteps(Model(), key, value);
      RetireValue(if key in entries then Some(entries[key]) else None, Some(value));
      Store(key, value);
    }

    method Store(key: Key, value: Value)
      modifies `entries, `idle, `timers, `nextTimer, `known
      ensures Model() == Settle(Stored(old(Model()), key, value), value)
    {
      entries := entries[key := value];
      if value.Entry? && value.owned {
        known := known + {value.url};
      }
      if value.Entry? && value.url !in holds {
        StartIdleTimer(value.url);
      }
    }

    method Delete(key: Key)
      requires Inv(Model())
      modifies this
      ensures Model() == Apply(old(Model()), DoDelete(key)) && Inv(Model())
    {
      DeleteKeeps(Model(), key);
      assert OwnsSome(entries, key) ==> Owns(entries, key, entries[key].url);
      RetireValue(if key in entries then Some(entries[key]) else None, None);
      entries := entries - {key};
    }

    /** The callback of a timer that has run out. */
    method Fire(timer: TimerId)
      requires Inv(Model()) && Legal(Model(), DoFire(timer))
      modifies this
      ensures Model() == Apply(old(Model()), DoFire(timer)) && Inv(Model())
    {
      FireEvicts(Model(), timer);
      var url := timers[timer];
      assert url in idle.Keys;
      timers := timers - {timer};
      idle := idle - {url};
      var owner := OwnerKey(url);
      if owner.None? || url in holds {
        return;
      }
      entries := entries - {owner.value};
      RevokeObjectURL(url);
    }

    /** The cached entry, if it has settled and has enough life left at `now`. */
    method GetFresh(key: Key, now: int) returns (r: Option<Value>)
      ensures r.Some? ==> key in entries && r.value == entries[key] && r.value.Entry?
      ensures r.Some? <==> key in entries && entries[key].Entry?
                           && (entries[key].expiresAt.Some? ==> entries[key].expiresAt.value - now > MIN_FRESH_MS)
    {
      if key in entries && entries[key].Entry?
         && (entries[key].expiresAt.None? || entries[key].expiresAt.value - now > MIN_FRESH_MS) {
        return Some(entries[key]);
      }
      return None;
    }
  }
}
