/** `createTtlCache` as the object it is: a store of shared, mutable entries.
    Each method is one uninterrupted stretch of `getOrLoad` between awaits and
    is proved to be the corresponding step of `CacheMachine`. */
module TtlCache {
  import opened Prelude
  import M = CacheMachine

  datatype Promise<+V> = Unsettled | Fulfilled(result: V) | Rejected

  /** An entry object.  `ordinal`, `key` and `begun` are what the closure around
      the entry knows; the other fields are the source's own. */
  class Entry<V> {
    ghost const ordinal: nat
    const key: string
    ghost const begun: int
    const expiresAt: int
    var promise: Promise<V>
    var settledValue: Option<V>
    var settled: bool

    constructor (ghost ordinal: nat, key: string, begun: int, ttl: int)
      ensures this.ordinal == ordinal && this.key == key && this.begun == begun
      ensures expiresAt == begun + ttl
      ensures promise == Unsettled && settledValue == None && !settled
    {
      this.ordinal, this.key, this.begun := ordinal, key, begun;
      expiresAt := begun + ttl;
      promise, settledValue, settled := Unsettled, None, false;
    }

    ghost predicate Consistent(ttl: int)
      reads this
    {
      && expiresAt == begun + ttl
      && (settled <==> promise.Fulfilled?)
      && settledValue == (if promise.Fulfilled? then Some(promise.result) else None)
    }

    ghost function Load(): M.Load<V>
      reads this
    {
      M.Load(key, begun,
             match promise
             case Unsettled => M.Loading
             case Fulfilled(v) => M.Loaded(v)
             case Rejected => M.Failed)
    }
  }

  datatype Reply<V> = Ready(value: V) | Await(entry: Entry<V>)

  class Cache<V> {
    const ttlMs: int
    var store: map<string, Entry<V>>
    ghost var entries: seq<Entry<V>>  // every entry ever created, oldest first
    ghost var state: M.State<V>       // what the object stands for

    ghost predicate Valid()
      reads this, entries
    {
      && |state.loads| == |entries|
      && (forall i :: 0 <= i < |entries| ==>
            entries[i].ordinal == i && entries[i].Consistent(ttlMs) && state.loads[i] == entries[i].Load())
      && state.store.Keys == store.Keys
      && (forall k :: k in store ==>
            && store[k] in entries && state.store[k] == store[k].ordinal
            && store[k].key == k && !store[k].promise.Rejected?)
    }

    constructor (ttlMs: int, ghost now: int)
      ensures Valid() && this.ttlMs == ttlMs && state == M.Init(now)
    {
      this.ttlMs := ttlMs;
      store, entries, state := map[], [], M.Init(now);
    }

    /** `getOrLoad` up to the point where it returns a value or a promise; `t` is
        the clock reading it takes.  A settled entry is answered from its value,
        and only from an entry that the step machine calls loaded. */
    method GetOrLoad(key: string, t: int) returns (r: Reply<V>)
      requires Valid() && state.now <= t
      modifies this
      ensures Valid()
      ensures state == M.Begin(old(state).(now := t), ttlMs, key)
      ensures var id := M.Served(old(state).(now := t), ttlMs, key);
              && id < |entries|
              && match r
                 case Ready(v) => state.loads[id].status == M.Loaded(v)
                 case Await(e) => e == entries[id] && state.loads[id].status == M.Loading
      ensures old(entries) <= entries
    {
      hide M.Hit, Valid;
      PassTime(t);
      HitMeans(key);
      if key in store && store[key].expiresAt > t {
        r := Answer(key, store[key]);
      } else {
        var entry := StartLoad(key, t);
        r := Await(entry);
      }
    }

    ghost method PassTime(t: int)
      requires Valid() && state.now <= t
      modifies this`state
      ensures Valid() && state == old(state).(now := t)
    {
      state := state.(now := t);
    }

    /** The object's test for a live entry is the machine's. */
    lemma HitMeans(key: string)
      requires Valid()
      ensures M.Hit(state, ttlMs, key) <==> key in store && store[key].expiresAt > state.now
    {
      if key in store {
        assert store[key] in entries && store[key].Consistent(ttlMs);
      }
    }

    method Answer(key: string, cached: Entry<V>) returns (r: Reply<V>)
      requires Valid() && key in store && store[key] == cached && M.Hit(state, ttlMs, key)
      ensures M.Begin(state, ttlMs, key) == state
      ensures var id := M.Served(state, ttlMs, key);
              && id < |entries| == |state.loads|
              && match r
                 case Ready(v) => state.loads[id].status == M.Loaded(v)
                 case Await(e) => e == entries[id] && state.loads[id].status == M.Loading
    {
      assert cached in entries && cached.Consistent(ttlMs);
      if cached.settled {
        r := Ready(cached.settledValue.value);
      } else {
        r := Await(cached);
      }
    }

    method StartLoad(key: string, t: int) returns (entry: Entry<V>)
      requires Valid() && state.now == t && !M.Hit(state, ttlMs, key)
      modifies this
      ensures Valid() && state == M.Begin(old(state), ttlMs, key)
      ensures entries == old(entries) + [entry] && entry.promise.Unsettled?
      ensures M.Served(old(state), ttlMs, key) == |old(entries)| && |state.loads| == |entries|
      ensures state.loads[|old(entries)|].status == M.Loading
    {
      entry := new Entry(|entries|, key, t, ttlMs);
      state := M.Begin(state, ttlMs, key);
      entries := entries + [entry];
      store := store[key := entry];
    }

    /** The loader of `entry` returned: its captured entry takes the value,
        wherever the store points by now. */
    method LoadSucceeded(entry: Entry<V>, value: V)
      requires Valid() && entry in entries && entry.promise.Unsettled?
      modifies this`state, entry
      ensures Valid()
      ensures state == M.Step(old(state), ttlMs, M.Succeed(entry.ordinal, value))
      ensures entry.promise == Fulfilled(value) && entry.settled && entry.settledValue == Some(value)
    {
      state := M.Step(state, ttlMs, M.Succeed(entry.ordinal, value));
      entry.settledValue := Some(value);
      entry.settled := true;
      entry.promise := Fulfilled(value);
    }

    /** The loader of `entry` threw: whatever its key maps to is dropped. */
    method LoadFailed(entry: Entry<V>)
      requires Valid() && entry in entries && entry.promise.Unsettled?
      modifies this`store, this`state, entry
      ensures Valid()
      ensures state == M.Step(old(state), ttlMs, M.Fail(entry.ordinal))
      ensures entry.promise == Rejected && !entry.settled && store == old(store) - {entry.key}
    {
      state := M.Step(state, ttlMs, M.Fail(entry.ordinal));
      store := store - {entry.key};
      entry.promise := Rejected;
    }
  }
}
