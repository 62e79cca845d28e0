// The histogram cache as the handler holds it: a bounded cache of references to mutable
// states, observed in place.
module HistogramStore {
  import opened Basics
  import opened Histograms
  import Lru

  /** The state of one histogram series. */
  class HistogramState {
    var count: nat
    var sum: real
    const bucketCounts: array<nat>
    var lastSeen: int

    ghost function Value(): Hist
      reads this, bucketCounts
    {
      Hist(count, sum, bucketCounts[..], lastSeen)
    }

    constructor (bounds: seq<real>)
      ensures Value() == NewHist(bounds)
      ensures fresh(bucketCounts) && bucketCounts.Length == |bounds| + 1
    {
      count := 0;
      sum := 0.0;
      bucketCounts := new nat[|bounds| + 1](_ => 0);
      lastSeen := 0;
    }

    method Observe(duration: real, now: int, bounds: seq<real>)
      requires bucketCounts.Length == |bounds| + 1
      modifies this, bucketCounts
      ensures Value() == old(Value()).Observe(duration, now, bounds)
    {
      count := (count + 1) % TWO_TO_64;
      sum := sum + duration;
      lastSeen := now;
      for i := 0 to |bounds|
        invariant BucketIndex(duration, bounds, 0) == BucketIndex(duration, bounds, i)
        invariant bucketCounts[..] == old(bucketCounts[..])
      {
        if duration <= bounds[i] {
          bucketCounts[i] := (bucketCounts[i] + 1) % TWO_TO_64;
          return;
        }
      }
      bucketCounts[|bounds|] := (bucketCounts[|bounds|] + 1) % TWO_TO_64;
    }
  }

  ghost function Arrays(states: set<HistogramState>): set<array<nat>> {
    set s | s in states :: s.bucketCounts
  }

  /** No two keys share a state and no two states share their bucket counts. */
  ghost predicate Owned(items: map<string, HistogramState>, states: set<HistogramState>) {
    && (forall k :: k in items ==> items[k] in states)
    && (forall k, l :: k in items && l in items && items[k] == items[l] ==> k == l)
    && (forall s, t :: s in states && t in states && s.bucketCounts == t.bucketCounts ==> s == t)
    && (forall s :: s in states ==> s.bucketCounts.Length == |DURATION_BOUNDS| + 1)
  }

  /** Only `key`, if any key, maps to the state. */
  ghost predicate Only(items: map<string, HistogramState>, state: HistogramState, key: string) {
    forall k :: k in items && items[k] == state ==> k == key
  }

  ghost function Values(items: map<string, HistogramState>, states: set<HistogramState>): map<string, DurationHist>
    requires Owned(items, states)
    reads states, Arrays(states)
  {
    map k | k in items :: items[k].Value()
  }

  lemma ValuesAre(items: map<string, HistogramState>, states: set<HistogramState>, m: map<string, DurationHist>)
    requires Owned(items, states)
    requires m.Keys == items.Keys && forall k :: k in m ==> m[k] == items[k].Value()
    ensures Values(items, states) == m
  {
  }

  lemma ValuesRemove(items: map<string, HistogramState>, states: set<HistogramState>, key: string)
    requires Owned(items, states)
    ensures Owned(items - {key}, states)
    ensures Values(items - {key}, states) == Values(items, states) - {key}
  {
  }

  lemma ValuesPut(items: map<string, HistogramState>, states: set<HistogramState>, key: string, state: HistogramState)
    requires Owned(items, states) && state in states && Only(items, state, key)
    ensures Owned(items[key := state], states)
    ensures Values(items[key := state], states) == Values(items, states)[key := state.Value()]
  {
  }

  lemma ValuesReplace(items: map<string, HistogramState>, states: set<HistogramState>, key: string,
                      state: HistogramState, oldest: string)
    returns (kept: map<string, HistogramState>, values: map<string, DurationHist>)
    requires Owned(items, states) && state in states && Only(items, state, key)
    ensures kept == items[key := state] - {oldest} && Owned(kept, states)
    ensures values == Values(kept, states) == Values(items, states)[key := state.Value()] - {oldest}
  {
    ValuesPut(items, states, key, state);
    ValuesRemove(items[key := state], states, oldest);
    kept := items[key := state] - {oldest};
    values := Values(kept, states);
  }

  lemma ValuesGrow(items: map<string, HistogramState>, states: set<HistogramState>, state: HistogramState)
    requires Owned(items, states) && state.bucketCounts.Length == |DURATION_BOUNDS| + 1
    requires state !in states && state.bucketCounts !in Arrays(states)
    ensures Owned(items, states + {state}) && Only(items, state, "")
    ensures Values(items, states + {state}) == Values(items, states)
  {
    assert forall s :: s in states ==> s.bucketCounts in Arrays(states);
  }

  class HistogramCache {
    const cache: Lru.Cache<string, HistogramState>
    ghost var states: set<HistogramState>

    ghost function Frame(): set<object>
      reads this
    {
      {this, cache} + states + Arrays(states)
    }

    ghost predicate Valid()
      reads this, Frame()
    {
      cache.Valid() && Owned(cache.items, states)
    }

    ghost function Value(): HistCache
      requires Valid()
      reads this, Frame()
    {
      Lru.State(cache.size, cache.order, Values(cache.items, states))
    }

    constructor ()
      ensures Valid() && fresh(Frame())
      ensures Value() == Lru.Empty(HISTOGRAM_CACHE_SIZE)
    {
      cache := new Lru.Cache(HISTOGRAM_CACHE_SIZE);
      states := {};
      new;
      ValuesAre(cache.items, states, map[]);
    }

    /** A state of its own for a series that is not cached. */
    method NewState() returns (state: HistogramState)
      requires Valid()
      modifies this
      ensures Valid() && fresh(Frame() - old(Frame())) && Value() == old(Value())
      ensures state in states && (forall k :: k in cache.items ==> cache.items[k] != state)
      ensures state.Value() == NewHist(DURATION_BOUNDS)
    {
      state := new HistogramState(DURATION_BOUNDS);
      ValuesGrow(cache.items, states, state);
      states := states + {state};
    }

    /** Looks a series up, making it the most recent one. */
    method Lookup(key: string) returns (cur: Option<HistogramState>)
      requires Valid()
      modifies cache
      ensures Valid() && cache.items == old(cache.items)
      ensures Value() == old(Value()).Get(key).0
      ensures cur == if key in cache.items then Some(cache.items[key]) else None
    {
      ghost var before := Value();
      Lru.GetProps(before, key);
      cur := cache.Get(key);
      ValuesAre(cache.items, states, before.items);
    }

    /** The cached state of a series, or a new one. */
    method StateOf(key: string) returns (state: HistogramState)
      requires Valid()
      modifies this, cache
      ensures Valid() && fresh(Frame() - old(Frame()))
      ensures state in states && Only(cache.items, state, key)
      ensures Value() == old(Value()).Get(key).0
      ensures state.Value() == if key in old(Value()).items then old(Value()).items[key] else NewHist(DURATION_BOUNDS)
    {
      var cur := Lookup(key);
      if cur.None? {
        state := NewState();
      } else {
        state := cur.value;
      }
    }

    /** Observes in place. Only the observed state changes, and adding it again hides its old value. */
    method ObserveState(key: string, state: HistogramState, seconds: real, now: int)
      requires Valid() && state in states && Only(cache.items, state, key)
      modifies state, state.bucketCounts
      ensures Valid()
      ensures state.Value() == old(state.Value()).Observe(seconds, now, DURATION_BOUNDS)
      ensures forall h: DurationHist :: Value().Add(key, h) == old(Value()).Add(key, h)
    {
      ghost var before := Values(cache.items, states);
      state.Observe(seconds, now, DURATION_BOUNDS);
      forall h: DurationHist
        ensures Value().Add(key, h) == old(Value()).Add(key, h)
      {
        assert Values(cache.items, states)[key := h] == before[key := h];
      }
    }

    /** Stores a state under its key. */
    method Store(key: string, state: HistogramState)
      requires Valid() && state in states && Only(cache.items, state, key)
      modifies cache
      ensures Valid()
      ensures Value() == old(Value()).Add(key, state.Value())
    {
      if key in cache.items || |cache.order| < cache.size {
        StoreWithRoom(key, state);
      } else {
        StoreInFull(key, state);
      }
    }

    method StoreWithRoom(key: string, state: HistogramState)
      requires Valid() && state in states && Only(cache.items, state, key)
      requires key in cache.items || |cache.order| < cache.size
      modifies cache
      ensures Valid()
      ensures Value() == old(Value()).Add(key, state.Value())
    {
      ghost var before, h := Value(), state.Value();
      Lru.AddFits(before, key, h);
      ValuesPut(cache.items, states, key, state);
      cache.Add(key, state);
      ValuesAre(cache.items, states, before.items[key := h]);
    }

    method StoreInFull(key: string, state: HistogramState)
      requires Valid() && state in states && Only(cache.items, state, key)
      requires key !in cache.items && |cache.order| == cache.size
      modifies cache
      ensures Valid()
      ensures Value() == old(Value()).Add(key, state.Value())
    {
      ghost var before, h, oldest := Value(), state.Value(), cache.order[0];
      Lru.AddEvicts(before, key, h);
      ghost var kept, values := ValuesReplace(cache.items, states, key, state, oldest);
      cache.Add(key, state);
      assert cache.items == kept;
      ValuesAre(cache.items, states, values);
    }

    method ObserveAndStore(key: string, state: HistogramState, seconds: real, now: int)
      requires Valid() && state in states && Only(cache.items, state, key)
      modifies state, state.bucketCounts, cache
      ensures Valid()
      ensures state.Value() == old(state.Value()).Observe(seconds, now, DURATION_BOUNDS)
      ensures Value() == old(Value()).Add(key, state.Value())
    {
      ghost var looked := Value();
      ObserveState(key, state, seconds, now);
      ghost var h := state.Value();
      assert Value().Add(key, h) == looked.Add(key, h);
      Store(key, state);
      assert state.Value() == h;
    }

    /** Gets or creates the state of a series, observes it in place, and adds it. */
    method Observe(key: string, seconds: real, now: int) returns (state: HistogramState)
      requires Valid()
      modifies this, cache, states, Arrays(states)
      ensures Valid() && fresh(Frame() - old(Frame()))
      ensures state in states
      ensures (Value(), state.Value()) == ObserveKey(old(Value()), key, seconds, now)
    {
      state := StateOf(key);
      ObserveAndStore(key, state, seconds, now);
    }

    /** Forgets the series that have not been observed for 24 hours. */
    method Sweep(now: int)
      requires Valid()
      modifies cache
      ensures Valid()
      ensures Value() == Histograms.Sweep(old(Value()), now)
    {
      var keys := cache.Keys();
      ghost var trace := SweepTrace(Value(), keys, now);
      ghost var goal := Histograms.Sweep(Value(), now);
      assert trace[|keys|] == goal;
      assert Value() == old(Value());
      assert goal == Histograms.Sweep(old(Value()), now);
      for i := 0 to |keys|
        invariant Valid()
        invariant Value() == trace[i]
      {
        ForgetStale(keys[i], now);
      }
      assert Value() == goal;
      assert goal == Histograms.Sweep(old(Value()), now);
    }

    method ForgetStale(key: string, now: int)
      requires Valid()
      modifies cache
      ensures Valid()
      ensures Value() == SweepKey(old(Value()), key, now)
    {
      ghost var before, swept := Value(), SweepKey(Value(), key, now);
      var stale := IsStale(key, now);
      assert Value() == before;
      if stale {
        Forget(key);
        assert Value() == before.Remove(key) == swept;
      }
    }

    method IsStale(key: string, now: int) returns (stale: bool)
      requires Valid()
      ensures stale ==> key in cache.items
      ensures SweepKey(Value(), key, now) == if stale then Value().Remove(key) else Value()
    {
      var state := cache.Peek(key);
      return state.Some? && Sub(now, state.value.lastSeen) >= HISTOGRAM_TTL;
    }

    method Forget(key: string)
      requires Valid() && key in cache.items
      modifies cache
      ensures Valid()
      ensures Value() == old(Value()).Remove(key)
    {
      ghost var before := Value();
      ghost var kept, order := before.items - {key}, Without(cache.order, key);
      ValuesRemove(cache.items, states, key);
      cache.Remove(key);
      ValuesAre(cache.items, states, kept);
      assert cache.order == order;
    }
  }

  /** The caches a sweep goes through. */
  lemma {:induction false} SweepTrace(c: HistCache, keys: seq<string>, now: int) returns (trace: seq<HistCache>)
    ensures |trace| == |keys| + 1 && trace[0] == c && trace[|keys|] == SweepKeys(c, keys, now)
    ensures forall i :: 0 <= i < |keys| ==> trace[i + 1] == SweepKey(trace[i], keys[i], now)
    decreases |keys|
  {
    trace := [c];
    if keys != [] {
      var rest := SweepTrace(SweepKey(c, keys[0], now), keys[1..], now);
      trace := trace + rest;
    }
  }
}
