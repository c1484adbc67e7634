/** The cache of the agent: a dict, a heap, a cached next expiry and a set of items to refresh that
    together behave like a map whose entries expire. */
module AgentCache {
  import opened CacheHeap
  import opened Wrappers

  /** The compatibility layer of get_or_else over the deprecated arguments: the periods after the last
      access and after the creation that an entry is kept. */
  function RetentionPolicy(forVersion: Option<bool>, timeout: Option<real>,
                           evictAfterLastAccess: real, evictAfterCreation: real): (r: (real, real))
    ensures r.0 > 0.0 || r.1 > 0.0
    ensures forVersion == Some(true) ==> r.0 > 0.0 && r.1 == 0.0
    ensures forVersion == Some(false) ==> r.0 == 0.0
    ensures forVersion == None && (evictAfterLastAccess > 0.0 || evictAfterCreation > 0.0) ==>
              r == (evictAfterLastAccess, evictAfterCreation)
  {
    match forVersion
    case Some(true) => (if evictAfterLastAccess > 0.0 then evictAfterLastAccess else 60.0, 0.0)
    case Some(false) =>
      (0.0,
       if evictAfterCreation > 0.0 then evictAfterCreation
       else if timeout.Some? && timeout.value > 0.0 then timeout.value
       else 5000.0)
    case None =>
      if evictAfterCreation <= 0.0 && evictAfterLastAccess <= 0.0 then
        if timeout.Some? && timeout.value > 0.0 then (evictAfterLastAccess, timeout.value)
        else (60.0, evictAfterCreation)
      else (evictAfterLastAccess, evictAfterCreation)
  }

  /** The documented effect of the deprecated arguments: for_version asks for a minute after the last access, or for the
      timeout, or 5000 seconds, after the creation, unless the periods say otherwise; without it the timeout stands in
      for a missing period. */
  lemma {:induction false} DeprecatedArguments(timeout: Option<real>, access: real, creation: real)
    ensures access > 0.0 ==> RetentionPolicy(Some(true), timeout, access, creation) == (access, 0.0)
    ensures access <= 0.0 ==> RetentionPolicy(Some(true), timeout, access, creation) == (60.0, 0.0)
    ensures creation > 0.0 ==> RetentionPolicy(Some(false), timeout, access, creation) == (0.0, creation)
    ensures creation <= 0.0 && timeout.Some? && timeout.value > 0.0 ==>
              && RetentionPolicy(Some(false), timeout, access, creation) == (0.0, timeout.value)
              && (access <= 0.0 ==> RetentionPolicy(None, timeout, access, creation) == (access, timeout.value))
    ensures creation <= 0.0 && (timeout.None? || timeout.value <= 0.0) ==>
              && RetentionPolicy(Some(false), timeout, access, creation) == (0.0, 5000.0)
              && (access <= 0.0 ==> RetentionPolicy(None, timeout, access, creation) == (60.0, creation))
  {
  }

  // ---------------------------------------------------------------- the representation invariant

  datatype ItemState = ItemState(expiryTime: real, calledFinalizer: bool, finalizerRuns: nat)

  type States = map<CacheItem, ItemState>

  ghost function TimesIn(st: States, q: seq<CacheItem>): (ts: seq<real>)
    requires forall x :: x in q ==> x in st
    ensures |ts| == |q|
  {
    seq(|q|, i requires 0 <= i < |q| => st[q[i]].expiryTime)
  }

  /** An item expires no later than its creation deadline, nor later than its period after the last
      refresh, and its finalizer runs at most once, and only if there is one. */
  ghost predicate StateOk(x: CacheItem, s: ItemState, clock: real) {
    && s.expiryTime <= x.afterCreationExpiryTime
    && (x.refreshAfterAccess > 0.0 ==> s.expiryTime <= clock + x.refreshAfterAccess)
    && s.finalizerRuns == (if s.calledFinalizer then 1 else 0) && (s.calledFinalizer ==> x.finalizable)
  }

  ghost predicate StatesOk(st: States, clock: real) {
    forall x {:trigger StateOk(x, st[x], clock)} :: x in st ==> StateOk(x, st[x], clock)
  }

  /** Every item is cached under its own key, and its finalizer has not run. */
  ghost predicate KeysOk(cache: map<string, CacheItem>, st: States) {
    forall k :: k in cache ==> cache[k].key == k && cache[k] in st && !st[cache[k]].calledFinalizer
  }

  /** The queue is a heap of exactly the cached items, each once, and its head is due next. */
  ghost predicate QueueOk(cache: map<string, CacheItem>, nextAction: Option<real>, q: seq<CacheItem>, st: States) {
    && multiset(q) == multiset(cache.Values)
    && (forall x :: x in q ==> x in st)
    && HeapFrom(TimesIn(st, q), 0)
    && nextAction == if q == [] then None else Some(st[q[0]].expiryTime)
  }

  ghost predicate Inv(cache: map<string, CacheItem>, nextAction: Option<real>, q: seq<CacheItem>,
                      used: set<CacheItem>, st: States, clock: real) {
    QueueOk(cache, nextAction, q, st) && KeysOk(cache, st) && StatesOk(st, clock) && used <= st.Keys
  }

  /** `next_action` is the least expiry time, or None for an empty cache. */
  lemma {:induction false} NextActionIsLeast(cache: map<string, CacheItem>, nextAction: Option<real>,
        q: seq<CacheItem>, st: States)
    requires QueueOk(cache, nextAction, q, st) && KeysOk(cache, st)
    ensures nextAction.None? <==> cache == map[]
    ensures forall k :: k in cache ==> nextAction.value <= st[cache[k]].expiryTime
    ensures nextAction.Some? ==> exists k :: k in cache && st[cache[k]].expiryTime == nextAction.value
  {
    forall k | k in cache ensures q != [] && nextAction.value <= st[cache[k]].expiryTime {
      assert cache[k] in multiset(q);
      var i :| 0 <= i < |q| && q[i] == cache[k];
      HeapTopIsLeast(TimesIn(st, q), i);
    }
    if q != [] {
      assert q[0] in multiset(cache.Values);
      var k :| k in cache && cache[k] == q[0];
    }
  }

  lemma {:induction false} ValuesWithout(cache: map<string, CacheItem>, key: string)
    requires key in cache && forall k :: k in cache ==> cache[k].key == k
    ensures multiset((cache - {key}).Values) == multiset(cache.Values) - multiset{cache[key]}
  {
    forall x | x in cache.Values - {cache[key]} ensures x in (cache - {key}).Values {
      var k :| k in cache && cache[k] == x;
      assert k in cache - {key};
    }
    assert (cache - {key}).Values == cache.Values - {cache[key]};
  }

  lemma {:induction false} SubqueueIsKnown(q: seq<CacheItem>, rest: seq<CacheItem>, st: States)
    requires (forall x :: x in q ==> x in st) && q != [] && Added(rest, q[0], q)
    ensures forall x :: x in rest ==> x in st
  {
    forall x | x in rest ensures x in st { assert x in multiset(rest); assert x in multiset(q); }
  }

  lemma {:induction false} QueueGrows(q: seq<CacheItem>, x: CacheItem, q': seq<CacheItem>, st: States)
    requires (forall y :: y in q ==> y in st) && x in st && Added(q, x, q')
    ensures forall y :: y in q' ==> y in st
  {
    forall y | y in q' ensures y in st { assert y in multiset(q'); assert y in q || y == x; }
  }

  ghost function Deleted(x: CacheItem, s: ItemState): ItemState {
    if x.finalizable && !s.calledFinalizer then ItemState(s.expiryTime, true, s.finalizerRuns + 1) else s
  }

  /** Taking the head off the queue and out of the cache keeps the invariant. */
  lemma {:induction false} HeadRemoved(cache: map<string, CacheItem>, nextAction: Option<real>, q: seq<CacheItem>,
                                       st: States, clock: real, rest: seq<CacheItem>)
    requires QueueOk(cache, nextAction, q, st) && KeysOk(cache, st) && StatesOk(st, clock) && q != []
    requires Added(rest, q[0], q) && (forall x :: x in rest ==> x in st) && HeapFrom(TimesIn(st, rest), 0)
    ensures q[0].key in cache && cache[q[0].key] == q[0] && |rest| < |q|
    ensures var st' := st[q[0] := Deleted(q[0], st[q[0]])];
            && KeysOk(cache - {q[0].key}, st') && StatesOk(st', clock)
            && QueueOk(cache - {q[0].key}, if rest == [] then None else Some(st[rest[0]].expiryTime), rest, st')
            && (q[0].finalizable ==> st'[q[0]].finalizerRuns == 1)
  {
    var x := q[0];
    assert x in multiset(cache.Values);
    var k :| k in cache && cache[k] == x;
    assert |q| == |multiset(q)| && |rest| == |multiset(rest)|;
    assert StateOk(x, st[x], clock);
    ValuesWithout(cache, k);
    var st' := st[x := Deleted(x, st[x])];
    assert TimesIn(st', rest) == TimesIn(st, rest);
    forall y | y in st' ensures StateOk(y, st'[y], clock) { assert StateOk(y, st[y], clock); }
    if rest != [] { assert x in st' && rest[0] in st'; }
  }

  lemma {:induction false} LaterClock(st: States, clock: real, now: real)
    requires StatesOk(st, clock) && clock <= now
    ensures StatesOk(st, now)
  {
    forall x | x in st ensures StateOk(x, st[x], now) { assert StateOk(x, st[x], clock); }
  }

  /** What eviction did to the items: those of `was` that are no longer in `cache` were deleted. */
  ghost predicate OnlyDeleted(was: map<string, CacheItem>, st: States, cache: map<string, CacheItem>, st': States) {
    && st'.Keys == st.Keys
    && (forall k :: k in cache ==> k in was && cache[k] == was[k])
    && forall x :: x in st ==>
         st'[x] == if x.key in was && was[x.key] == x && x.key !in cache then Deleted(x, st[x]) else st[x]
  }

  /** The finalizer of an item that left the cache ran exactly once, that of one that stayed did not run. */
  lemma {:induction false} FinalizedOnce(was: map<string, CacheItem>, st: States, cache: map<string, CacheItem>,
        st': States, clock: real)
    requires KeysOk(was, st) && StatesOk(st, clock) && OnlyDeleted(was, st, cache, st')
    ensures forall k :: k in was && was[k].finalizable ==> st'[was[k]].finalizerRuns == if k in cache then 0 else 1
  {
    forall k | k in was && was[k].finalizable ensures st'[was[k]].finalizerRuns == if k in cache then 0 else 1 {
      assert StateOk(was[k], st[was[k]], clock);
    }
  }

  /** Everything that left the cache had expired. */
  ghost predicate OnlyStale(was: map<string, CacheItem>, st: States, cache: map<string, CacheItem>, now: real) {
    forall k :: k in was && k !in cache ==> was[k] in st && st[was[k]].expiryTime < now
  }

  lemma {:induction false} OneMoreDeleted(was: map<string, CacheItem>, st: States, cache: map<string, CacheItem>,
        st': States, x: CacheItem)
    requires OnlyDeleted(was, st, cache, st') && x in st' && x.key in cache && cache[x.key] == x
    ensures OnlyDeleted(was, st, cache - {x.key}, st'[x := Deleted(x, st'[x])])
  {
  }

  lemma {:induction false} OneMoreStale(was: map<string, CacheItem>, st: States, cache: map<string, CacheItem>,
        st': States,
                                        x: CacheItem, now: real)
    requires OnlyDeleted(was, st, cache, st') && OnlyStale(was, st, cache, now)
    requires x in st' && x.key in cache && cache[x.key] == x && st'[x].expiryTime < now
    ensures OnlyStale(was, st, cache - {x.key}, now)
  {
  }

  lemma {:induction false} KeyIsOwn(was: map<string, CacheItem>, st: States, cache: map<string, CacheItem>,
        st': States, key: string)
    requires KeysOk(was, st) && OnlyDeleted(was, st, cache, st') && key in cache
    ensures cache[key].key == key && cache[key] in st'
  {
  }

  lemma {:induction false} DeletedIsOk(st: States, clock: real, x: CacheItem)
    requires StatesOk(st, clock) && x in st
    ensures StatesOk(st[x := Deleted(x, st[x])], clock)
  {
    forall y | y in st ensures StateOk(y, st[x := Deleted(x, st[x])][y], clock) { assert StateOk(y, st[y], clock); }
  }

  lemma {:induction false} EmptyCacheIsOk(st: States)
    ensures QueueOk(map[], None, [], st) && KeysOk(map[], st)
  {
    var cache: map<string, CacheItem> := map[];
    assert cache.Values == {};
    assert HeapFrom(TimesIn(st, []), 0);
  }

  ghost function Refreshed(x: CacheItem, s: ItemState, now: real): ItemState {
    if x.refreshAfterAccess <= 0.0 then s
    else ItemState(Min(now + x.refreshAfterAccess, x.afterCreationExpiryTime), s.calledFinalizer, s.finalizerRuns)
  }

  lemma {:induction false} RefreshedExpiry(x: CacheItem, s: ItemState, now: real)
    ensures Refreshed(x, s, now).expiryTime
         == if x.refreshAfterAccess > 0.0 then Min(now + x.refreshAfterAccess, x.afterCreationExpiryTime)
            else s.expiryTime
  {
  }

  /** A refresh moves the expiry forward, at most to the creation deadline. */
  lemma {:induction false} RefreshKeepsOk(x: CacheItem, s: ItemState, clock: real, now: real)
    requires StateOk(x, s, clock) && clock <= now
    ensures StateOk(x, Refreshed(x, s, now), now)
    ensures s.expiryTime <= Refreshed(x, s, now).expiryTime <= x.afterCreationExpiryTime
  {
  }

  /** The states after refreshing the items of `done`. */
  ghost predicate RefreshedOnly(st: States, done: set<CacheItem>, now: real, st': States) {
    && st'.Keys == st.Keys
    && forall x :: x in st ==> st'[x] == if x in done then Refreshed(x, st[x], now) else st[x]
  }

  /** No expiry time went back, and none passed the creation deadline. */
  ghost predicate MovedForward(st: States, st': States) {
    forall x :: x in st ==> x in st' && st[x].expiryTime <= st'[x].expiryTime <= x.afterCreationExpiryTime
  }

  lemma {:induction false} RefreshKeepsStatesOk(st: States, clock: real, done: set<CacheItem>, now: real, st': States)
    requires StatesOk(st, clock) && clock <= now && RefreshedOnly(st, done, now, st')
    ensures StatesOk(st', now) && MovedForward(st, st')
  {
    forall x | x in st
      ensures StateOk(x, st'[x], now) && st[x].expiryTime <= st'[x].expiryTime <= x.afterCreationExpiryTime
    {
      assert StateOk(x, st[x], clock);
      RefreshKeepsOk(x, st[x], clock, now);
    }
  }

  lemma {:induction false} RefreshKeepsKeysOk(cache: map<string, CacheItem>, st: States, done: set<CacheItem>,
        now: real, st': States)
    requires KeysOk(cache, st) && RefreshedOnly(st, done, now, st')
    ensures KeysOk(cache, st')
  {
  }

  lemma {:induction false} QueueItemsKnown(cache: map<string, CacheItem>, nextAction: Option<real>, q: seq<CacheItem>,
        st: States)
    requires QueueOk(cache, nextAction, q, st)
    ensures forall x :: x in q ==> x in st
    ensures HeapFrom(TimesIn(st, q), 0) && (q == [] ==> nextAction == None)
  {
  }

  /** A rearranged heap of the same items serves the same cache. */
  lemma {:induction false} QueueRestored(cache: map<string, CacheItem>, nextAction: Option<real>, q: seq<CacheItem>,
        st: States,
                                         q': seq<CacheItem>, st': States)
    requires QueueOk(cache, nextAction, q, st) && multiset(q') == multiset(q) && st'.Keys == st.Keys
    requires (forall x :: x in q' ==> x in st') && (q != [] ==> HeapFrom(TimesIn(st', q'), 0))
    ensures QueueOk(cache, if q' == [] then None else Some(st'[q'[0]].expiryTime), q', st')
  {
    assert |q'| == |multiset(q')| && |q| == |multiset(q)|;
  }

  /** The earlier of the deadlines that the positive periods set, NEVER when there is none. */
  ghost predicate ExpiresWithin(expiry: real, afterAccess: real, afterCreation: real, now: real) {
    && (afterAccess > 0.0 ==> expiry <= now + afterAccess)
    && (afterCreation > 0.0 ==> expiry <= now + afterCreation)
    && (|| expiry == NEVER
        || (afterAccess > 0.0 && expiry == now + afterAccess)
        || (afterCreation > 0.0 && expiry == now + afterCreation))
  }

  /** An item is as good as new. */
  ghost predicate NewItem(x: CacheItem, s: ItemState, clock: real) {
    StateOk(x, s, clock) && !s.calledFinalizer
  }

  lemma {:induction false} ItemInserted(cache: map<string, CacheItem>, nextAction: Option<real>, q: seq<CacheItem>,
        st: States, clock: real,
                                        x: CacheItem, s: ItemState, q': seq<CacheItem>)
    requires QueueOk(cache, nextAction, q, st) && KeysOk(cache, st) && StatesOk(st, clock)
    requires x !in st && NewItem(x, s, clock) && x.key !in cache
    requires Added(q, x, q') && (forall y :: y in q' ==> y in st || y == x) && HeapFrom(TimesIn(st[x := s], q'), 0)
    ensures KeysOk(cache[x.key := x], st[x := s]) && StatesOk(st[x := s], clock)
    ensures QueueOk(cache[x.key := x],
                    if nextAction.None? || s.expiryTime < nextAction.value then Some(s.expiryTime) else nextAction,
                    q', st[x := s])
  {
    var st' := st[x := s];
    forall y | y in st' ensures StateOk(y, st'[y], clock) { if y != x { assert StateOk(y, st[y], clock); } }
    ValuesWith(cache, x, st);
    QueueHead(nextAction, q, st, x, s, q');
  }

  lemma {:induction false} ValuesWith(cache: map<string, CacheItem>, x: CacheItem, st: States)
    requires KeysOk(cache, st) && x !in st && x.key !in cache
    ensures multiset(cache[x.key := x].Values) == multiset(cache.Values) + multiset{x}
  {
    var cache' := cache[x.key := x];
    forall y | y in cache.Values + {x} ensures y in cache'.Values {
      if y == x { assert cache'[x.key] == x; } else {
        var k :| k in cache && cache[k] == y;
        assert cache'[k] == y;
      }
    }
    assert cache'.Values == cache.Values + {x};
    assert x !in cache.Values;
  }

  /** The comparison with the cached minimum finds the new minimum. */
  lemma {:induction false} QueueHead(nextAction: Option<real>, q: seq<CacheItem>, st: States, x: CacheItem,
        s: ItemState, q': seq<CacheItem>)
    requires (forall y :: y in q ==> y in st) && HeapFrom(TimesIn(st, q), 0) && x !in st
    requires nextAction == if q == [] then None else Some(st[q[0]].expiryTime)
    requires Added(q, x, q') && (forall y :: y in q' ==> y in st || y == x) && HeapFrom(TimesIn(st[x := s], q'), 0)
    ensures q' != []
    ensures st[x := s][q'[0]].expiryTime
         == if nextAction.None? || s.expiryTime < nextAction.value then s.expiryTime else nextAction.value
  {
    assert x in multiset(q');
    var ts := TimesIn(st[x := s], q');
    var i :| 0 <= i < |q'| && q'[i] == x;
    HeapTopIsLeast(ts, i);
    if q'[0] != x {
      assert q'[0] in multiset(q') && q'[0] in multiset(q);
      var j :| 0 <= j < |q| && q[j] == q'[0];
      HeapTopIsLeast(TimesIn(st, q), j);
    }
    if q != [] {
      assert q[0] in multiset(q) && q[0] in multiset(q');
      var l :| 0 <= l < |q'| && q'[l] == q[0];
      HeapTopIsLeast(ts, l);
    }
  }

  // ---------------------------------------------------------------- the cache

  class Cache {
    var cache: map<string, CacheItem>
    var nextAction: Option<real>
    var timerQueue: seq<CacheItem>
    var usedItemsToRefresh: set<CacheItem>
    ghost var states: States  // every item that was ever added, as it is now
    ghost var clock: real  // the last time read

    ghost predicate Tracks()
      reads this`states, states.Keys`expiryTime, states.Keys`calledFinalizer, states.Keys`finalizerRuns
    {
      forall x :: x in states ==> states[x] == ItemState(x.expiryTime, x.calledFinalizer, x.finalizerRuns)
    }

    ghost predicate Valid()
      reads this, states.Keys`expiryTime, states.Keys`calledFinalizer, states.Keys`finalizerRuns
    {
      Tracks() && Inv(cache, nextAction, timerQueue, usedItemsToRefresh, states, clock)
    }

    constructor (now: real)
      ensures Valid() && cache == map[] && usedItemsToRefresh == {} && clock == now && states == map[]
    {
      cache, nextAction, timerQueue, usedItemsToRefresh, states, clock := map[], None, [], {}, map[], now;
    }

    lemma {:induction false} TimesAreTracked(q: seq<CacheItem>)
      requires Tracks() && forall x :: x in q ==> x in states
      ensures Times(q) == TimesIn(states, q)
    {
      forall i: nat | i < |q| ensures Times(q)[i] == TimesIn(states, q)[i] {
        TimesAt(q, i);
      }
    }

    method EvictItem(key: string)
      requires Tracks() && (key in cache ==> cache[key] in states)
      modifies this`cache, this`states, states.Keys`calledFinalizer, states.Keys`finalizerRuns
      ensures Tracks() && cache == old(cache) - {key}
      ensures states == if key in old(cache)
                        then var x := old(cache)[key]; old(states)[x := Deleted(x, old(states)[x])]
                        else old(states)
    {
      if key in cache {
        var item := cache[key];
        item.Delete();
        states := states[item := Deleted(item, states[item])];
        cache := cache - {key};
      }
    }

    method PopFirst() returns (item: CacheItem)
      requires Valid() && timerQueue != []
      modifies this`timerQueue
      ensures old(timerQueue) != [] && item == old(timerQueue)[0] && Added(timerQueue, item, old(timerQueue))
      ensures (forall x :: x in timerQueue ==> x in states) && HeapFrom(TimesIn(states, timerQueue), 0)
    {
      TimesAreTracked(timerQueue);
      ghost var was := timerQueue;
      hide QueueOk, KeysOk, StatesOk, HeapFrom, Added;
      assert HeapFrom(Times(timerQueue), 0);
      item, timerQueue := HeapPop(timerQueue);
      SubqueueIsKnown(was, timerQueue, states);
      TimesAreTracked(timerQueue);
    }

    method DropFirst(x: CacheItem)
      requires Tracks() && x in states && x.key in cache && cache[x.key] == x
      requires forall y :: y in timerQueue ==> y in states
      modifies this`cache, this`nextAction, this`states, states.Keys`calledFinalizer, states.Keys`finalizerRuns
      ensures Tracks() && cache == old(cache) - {x.key} && states == old(states)[x := Deleted(x, old(states)[x])]
      ensures nextAction == if timerQueue == [] then None else Some(old(states)[timerQueue[0]].expiryTime)
    {
      EvictItem(x.key);
      if |timerQueue| > 0 {
        assert timerQueue[0] in states;
        nextAction := Some(timerQueue[0].expiryTime);
      } else {
        nextAction := None;
      }
    }

    /** One turn of the loop of clean_stale_entries. */
    method EvictFirst() returns (x: CacheItem)
      requires Valid() && timerQueue != []
      modifies this`cache, this`timerQueue, this`nextAction, this`states
      modifies states.Keys`calledFinalizer, states.Keys`finalizerRuns
      ensures Valid() && |timerQueue| < old(|timerQueue|)
      ensures x in old(states) && x.key in old(cache) && old(cache)[x.key] == x && cache == old(cache) - {x.key}
      ensures old(nextAction) == Some(old(states)[x].expiryTime)
      ensures states == old(states)[x := Deleted(x, old(states)[x])] && clock == old(clock)
    {
      ghost var was := timerQueue;
      x := PopFirst();
      HeadRemoved(cache, nextAction, was, states, clock, timerQueue);
      hide QueueOk, KeysOk, StatesOk, StateOk, HeapFrom, Added, Deleted, TimesIn;
      DropFirst(x);
    }

    /** Keeps exactly the entries that have not expired, and runs the finalizers of the others. */
    method CleanStaleEntries(now: real)
      requires Valid() && clock <= now
      modifies this`cache, this`timerQueue, this`nextAction, this`states, this`clock
      modifies states.Keys`calledFinalizer, states.Keys`finalizerRuns
      ensures Valid() && clock == now
      ensures forall k :: k in cache <==>
                k in old(cache) && old(cache)[k] in old(states) && old(states)[old(cache)[k]].expiryTime >= now
      ensures OnlyDeleted(old(cache), old(states), cache, states)
    {
      ghost var was, st := cache, states;
      LaterClock(states, clock, now);
      clock := now;
      while nextAction.Some? && now > nextAction.value && |timerQueue| > 0
        invariant Valid() && clock == now
        invariant OnlyDeleted(was, st, cache, states) && OnlyStale(was, st, cache, now)
        decreases |timerQueue|
      {
        ghost var cache', st' := cache, states;
        ghost var x := EvictFirst();
        OneMoreDeleted(was, st, cache', st', x);
        OneMoreStale(was, st, cache', st', x, now);
      }
      NextActionIsLeast(cache, nextAction, timerQueue, states);
    }

    method RefreshUsed(now: real)
      requires Tracks() && usedItemsToRefresh <= states.Keys
      modifies this`states, states.Keys`expiryTime
      ensures Tracks() && RefreshedOnly(old(states), usedItemsToRefresh, now, states)
    {
      var todo := usedItemsToRefresh;
      while todo != {}
        invariant Tracks() && todo <= usedItemsToRefresh && states.Keys == old(states).Keys
        invariant RefreshedOnly(old(states), usedItemsToRefresh - todo, now, states)
      {
        var item :| item in todo;
        item.Refresh(now);
        states := states[item := Refreshed(item, states[item], now)];
        todo := todo - {item};
      }
    }

    method RestoreQueue()
      requires Tracks() && forall x :: x in timerQueue ==> x in states
      modifies this`timerQueue
      ensures multiset(timerQueue) == old(multiset(timerQueue))
      ensures (forall x :: x in timerQueue ==> x in states) && HeapFrom(TimesIn(states, timerQueue), 0)
    {
      ghost var was := timerQueue;
      timerQueue := Heapify(timerQueue);
      forall x | x in timerQueue ensures x in states { assert x in multiset(timerQueue); assert x in was; }
      TimesAreTracked(timerQueue);
    }

    /** Makes the queue a heap again, after the items have moved on from the states `was`. */
    method Requeue(ghost was: States)
      requires Tracks() && QueueOk(cache, nextAction, timerQueue, was) && was.Keys == states.Keys
      modifies this`timerQueue, this`nextAction
      ensures QueueOk(cache, nextAction, timerQueue, states)
    {
      hide QueueOk, HeapFrom, TimesIn;
      QueueItemsKnown(cache, nextAction, timerQueue, was);
      if timerQueue != [] {
        RestoreQueue();
        nextAction := Some(timerQueue[0].expiryTime);
      }
      QueueRestored(cache, old(nextAction), old(timerQueue), was, timerQueue, states);
    }

    /** Moves the expiry of the used items forward, never backwards, never past their creation deadline. */
    method TouchUsedCacheItems(now: real)
      requires Valid() && clock <= now
      modifies this`timerQueue, this`nextAction, this`usedItemsToRefresh, this`states, this`clock
      modifies states.Keys`expiryTime
      ensures Valid() && clock == now && usedItemsToRefresh == {}
      ensures RefreshedOnly(old(states), old(usedItemsToRefresh), now, states) && MovedForward(old(states), states)
      ensures forall x :: x in old(states) ==>
                x.expiryTime == if x in old(usedItemsToRefresh) && x.refreshAfterAccess > 0.0
                                then Min(now + x.refreshAfterAccess, x.afterCreationExpiryTime)
                                else old(x.expiryTime)
    {
      ghost var st, t := states, clock;
      hide QueueOk, KeysOk, StatesOk, StateOk, Refreshed;
      RefreshUsed(now);
      RefreshKeepsStatesOk(st, t, usedItemsToRefresh, now, states);
      RefreshKeepsKeysOk(cache, st, usedItemsToRefresh, now, states);
      clock := now;
      usedItemsToRefresh := {};
      Requeue(st);
      forall x | x in st ensures
        x.expiryTime == if x in old(usedItemsToRefresh) && x.refreshAfterAccess > 0.0
                        then Min(now + x.refreshAfterAccess, x.afterCreationExpiryTime)
                        else old(x.expiryTime)
      {
        RefreshedExpiry(x, st[x], now);
        assert states[x].expiryTime == x.expiryTime && st[x].expiryTime == old(x.expiryTime);
      }
    }

    /** Empties the cache; every finalizer of a cached item has then run exactly once. */
    method Close()
      requires Valid()
      modifies this`cache, this`timerQueue, this`nextAction, this`states
      modifies states.Keys`calledFinalizer, states.Keys`finalizerRuns
      ensures Valid() && cache == map[] && nextAction == None && OnlyDeleted(old(cache), old(states), map[], states)
    {
      ghost var was, st := cache, states;
      hide StatesOk, StateOk, KeysOk, QueueOk, HeapFrom, Deleted, TimesIn;
      nextAction := None;
      var keys := cache.Keys;
      while keys != {}
        invariant keys == cache.Keys && Tracks() && StatesOk(states, clock) && OnlyDeleted(was, st, cache, states)
        invariant nextAction == None && usedItemsToRefresh <= states.Keys
      {
        var key :| key in keys;
        ghost var cache', st', x := cache, states, cache[key];
        KeyIsOwn(was, st, cache, states, key);
        EvictItem(key);
        OneMoreDeleted(was, st, cache', st', x);
        DeletedIsOk(st', clock, x);
        keys := keys - {key};
      }
      timerQueue := [];
      EmptyCacheIsOk(states);
      assert cache == map[];
    }

    /** Looks an entry up, and remembers to refresh it if it lives longer when used. */
    method Get(key: string) returns (item: Option<CacheItem>)
      requires Valid()
      modifies this`usedItemsToRefresh
      ensures Valid() && item == if key in cache then Some(cache[key]) else None
      ensures usedItemsToRefresh
           == old(usedItemsToRefresh)
              + if item.Some? && item.value.refreshAfterAccess != 0.0 then {item.value} else {}
    {
      if key !in cache {
        return None;
      }
      item := Some(cache[key]);
      if item.value.refreshAfterAccess != 0.0 {
        usedItemsToRefresh := usedItemsToRefresh + {item.value};
      }
    }

    /** Adds a new item, unless its key is taken: "Added same item twice". */
    method Add(item: CacheItem) returns (added: bool)
      requires Valid() && item !in states
               && NewItem(item, ItemState(item.expiryTime, item.calledFinalizer, item.finalizerRuns), clock)
      modifies this`cache, this`timerQueue, this`nextAction, this`usedItemsToRefresh, this`states
      ensures Valid() && added == (item.key !in old(cache))
      ensures !added ==> cache == old(cache) && states == old(states) && usedItemsToRefresh == old(usedItemsToRefresh)
      ensures added ==>
        && cache == old(cache)[item.key := item]
        && states == old(states)[item := ItemState(item.expiryTime, item.calledFinalizer, item.finalizerRuns)]
        && usedItemsToRefresh == old(usedItemsToRefresh) + if item.refreshAfterAccess != 0.0 then {item} else {}
    {
      if item.key in cache {
        return false;
      }
      ghost var st, q, s := states, timerQueue, ItemState(item.expiryTime, item.calledFinalizer, item.finalizerRuns);
      QueueItemsKnown(cache, nextAction, q, st);
      hide QueueOk, KeysOk, StatesOk, StateOk, HeapFrom, TimesIn, Added;
      cache := cache[item.key := item];
      PushItem(item);
      if item.refreshAfterAccess != 0.0 {
        usedItemsToRefresh := usedItemsToRefresh + {item};
      }
      ItemInserted(old(cache), nextAction, q, st, clock, item, s, timerQueue);
      if nextAction.None? || item.expiryTime < nextAction.value {
        nextAction := Some(item.expiryTime);
      }
      return true;
    }

    method PushItem(item: CacheItem)
      requires Tracks() && item !in states && forall x :: x in timerQueue ==> x in states
      requires HeapFrom(TimesIn(states, timerQueue), 0)
      modifies this`timerQueue, this`states
      ensures states == old(states)[item := ItemState(item.expiryTime, item.calledFinalizer, item.finalizerRuns)]
              && Tracks()
      ensures Added(old(timerQueue), item, timerQueue) && forall x :: x in timerQueue ==> x in states
      ensures HeapFrom(TimesIn(states, timerQueue), 0)
    {
      TimesAreTracked(timerQueue);
      ghost var was := timerQueue;
      hide HeapFrom, Added;
      timerQueue := HeapPush(timerQueue, item);
      states := states[item := ItemState(item.expiryTime, item.calledFinalizer, item.finalizerRuns)];
      QueueGrows(was, item, timerQueue, states);
      TimesAreTracked(timerQueue);
    }

    /** Adds a value that expires `evictAfterLastAccess` after its last use and `evictAfterCreation` after now,
        whichever comes first; a period that is not positive does not count. */
    method CacheValue(key: string, value: Value, finalizable: bool, evictAfterLastAccess: real,
          evictAfterCreation: real, now: real)
      returns (added: bool)
      requires Valid() && clock <= now && now + evictAfterLastAccess <= NEVER && now + evictAfterCreation <= NEVER
      modifies this`cache, this`timerQueue, this`nextAction, this`usedItemsToRefresh, this`states, this`clock
      ensures Valid() && clock == now && added == (key !in old(cache))
      ensures !added ==> cache == old(cache) && states == old(states) && usedItemsToRefresh == old(usedItemsToRefresh)
      ensures added ==>
        && key in cache && cache == old(cache)[key := cache[key]] && cache[key] !in old(states) && cache[key] in states
        && usedItemsToRefresh == old(usedItemsToRefresh) + (if evictAfterLastAccess != 0.0 then {cache[key]} else {})
        && cache[key].value == value && cache[key].finalizable == finalizable
        && cache[key].refreshAfterAccess == evictAfterLastAccess
        && states == old(states)[cache[key] := states[cache[key]]]
        && ExpiresWithin(states[cache[key]].expiryTime, evictAfterLastAccess, evictAfterCreation, now)
    {
      LaterClock(states, clock, now);
      clock := now;
      hide QueueOk, KeysOk, StatesOk;
      var item := new CacheItem(key, value, finalizable, evictAfterLastAccess, evictAfterCreation, now);
      added := Add(item);
    }

    /** Finds the value of a key, or calls the producer once and caches what it produces; a producer that raises,
        which here produces nothing, leaves the cache alone, and the exception is the caller's. */
    method GetOrElse(key: string, produced: Option<Value>, forVersion: Option<bool>, timeout: Option<real>,
                     evictAfterLastAccess: real, evictAfterCreation: real, cacheNone: bool, finalizable: bool,
                     now: real)
      returns (value: Option<Value>, called: bool)
      requires Valid() && clock <= now && now + evictAfterLastAccess <= NEVER && now + evictAfterCreation <= NEVER
      requires now + 5000.0 <= NEVER && (timeout.Some? ==> now + timeout.value <= NEVER)
      modifies this`cache, this`timerQueue, this`nextAction, this`usedItemsToRefresh, this`states, this`clock
      ensures Valid() && called == (key !in old(cache))
      ensures value == if called then produced else Some(old(cache)[key].value)
      ensures !called ==> cache == old(cache) && states == old(states) && clock == old(clock)
      ensures forall k :: k in old(cache) ==> k in cache && cache[k] == old(cache)[k]
      ensures usedItemsToRefresh
           == old(usedItemsToRefresh)
              + if key in cache && cache[key].refreshAfterAccess != 0.0 then {cache[key]} else {}
      ensures cache.Keys <= old(cache).Keys + {key}
      ensures key in cache <==> key in old(cache) || (produced.Some? && (cacheNone || produced.value != PythonNone))
      ensures forall x :: x in old(states) ==> x in states && states[x] == old(states)[x]
      ensures called && key in cache ==>
        && Some(cache[key].value) == produced && cache[key] in states
        && var (access, creation) := RetentionPolicy(forVersion, timeout, evictAfterLastAccess, evictAfterCreation);
           (access > 0.0 || creation > 0.0) && ExpiresWithin(states[cache[key]].expiryTime, access, creation, now)
    {
      hide QueueOk, KeysOk, StatesOk, Tracks, RetentionPolicy, ExpiresWithin;
      var item := Get(key);
      if item.Some? {
        return Some(item.value.value), false;
      }
      value, called := produced, true;
      if value.Some? && (cacheNone || value.value != PythonNone) {
        CacheProduced(key, value.value, forVersion, timeout, evictAfterLastAccess, evictAfterCreation, finalizable,
                      now);
      }
    }

    /** An entry that `get_or_else` finds, that is then refreshed and cleaned up after, stays in the cache exactly as
        long as neither its period since the refresh nor its creation deadline has passed. */
    method UseAndCleanUp(key: string, produced: Option<Value>, used: real, touched: real, cleaned: real)
      returns (item: CacheItem)
      requires Valid() && key in cache && cache[key].refreshAfterAccess > 0.0
      requires clock <= used <= touched <= cleaned && used + 5000.0 <= NEVER
      modifies this`cache, this`timerQueue, this`nextAction, this`usedItemsToRefresh, this`states, this`clock
      modifies states.Keys`expiryTime, states.Keys`calledFinalizer, states.Keys`finalizerRuns
      ensures Valid() && item == old(cache)[key]
      ensures item.expiryTime == Min(touched + item.refreshAfterAccess, item.afterCreationExpiryTime)
      ensures key in cache <==> cleaned <= item.expiryTime
      ensures key in cache ==> cache[key] == item
    {
      item := cache[key];
      hide QueueOk, StatesOk, Deleted, Refreshed, MovedForward, ExpiresWithin, RetentionPolicy;
      var value, called := GetOrElse(key, produced, None, None, 60.0, 0.0, true, false, used);
      TouchUsedCacheItems(touched);
      CleanStaleEntries(cleaned);
    }

    method CacheProduced(key: string, value: Value, forVersion: Option<bool>, timeout: Option<real>,
                         evictAfterLastAccess: real, evictAfterCreation: real, finalizable: bool, now: real)
      requires Valid() && clock <= now && now + evictAfterLastAccess <= NEVER && now + evictAfterCreation <= NEVER
      requires now + 5000.0 <= NEVER && (timeout.Some? ==> now + timeout.value <= NEVER) && key !in cache
      modifies this`cache, this`timerQueue, this`nextAction, this`usedItemsToRefresh, this`states, this`clock
      ensures Valid() && key in cache && cache == old(cache)[key := cache[key]] && cache[key].value == value
      ensures usedItemsToRefresh
           == old(usedItemsToRefresh) + if cache[key].refreshAfterAccess != 0.0 then {cache[key]} else {}
      ensures forall x :: x in old(states) ==> x in states && states[x] == old(states)[x]
      ensures cache[key] in states
        && var (access, creation) := RetentionPolicy(forVersion, timeout, evictAfterLastAccess, evictAfterCreation);
           (access > 0.0 || creation > 0.0) && ExpiresWithin(states[cache[key]].expiryTime, access, creation, now)
    {
      var (access, creation) := RetentionPolicy(forVersion, timeout, evictAfterLastAccess, evictAfterCreation);
      assert now + access <= NEVER && now + creation <= NEVER;
      hide QueueOk, KeysOk, StatesOk, RetentionPolicy;
      var added := CacheValue(key, value, finalizable, access, creation, now);
    }
  }
}
