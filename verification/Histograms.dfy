// The cumulative duration histograms: observing a duration, the bounded cache of
// histogram states, and the sweep that forgets series not seen for 24 hours.
// Times are nanoseconds of one nondecreasing clock; durations are real seconds.
module Histograms {
  import opened Basics
  import Lru

  const HISTOGRAM_CACHE_SIZE: nat := 50000
  const HISTOGRAM_TTL: int := 24 * 3600 * 1_000_000_000
  const DURATION_BOUNDS: seq<real> := [5.0, 15.0, 30.0, 60.0, 300.0, 600.0, 1800.0]

  /** time.Time.Sub: the difference in nanoseconds, saturated to int64. */
  function Sub(t: int, u: int): int {
    if t - u >= TWO_TO_63 then TWO_TO_63 - 1
    else if t - u < -TWO_TO_63 then -TWO_TO_63
    else t - u
  }

  // ---- One histogram ----

  datatype Hist = Hist(count: nat, sum: real, buckets: seq<nat>, lastSeen: int) {

    predicate Valid(bounds: seq<real>) {
      |buckets| == |bounds| + 1
    }

    function Observe(duration: real, now: int, bounds: seq<real>): Hist
      requires Valid(bounds)
    {
      var b := BucketIndex(duration, bounds, 0);
      Hist((count + 1) % TWO_TO_64, sum + duration, buckets[b := (buckets[b] + 1) % TWO_TO_64], now)
    }
  }

  function NewHist(bounds: seq<real>): Hist {
    Hist(0, 0.0, seq(|bounds| + 1, _ => 0), 0)
  }

  /** The first bucket from `i` on whose bound is not exceeded; the last bucket has no bound. */
  function BucketIndex(d: real, bounds: seq<real>, i: nat): (b: nat)
    requires i <= |bounds|
    ensures i <= b <= |bounds|
    ensures b < |bounds| ==> d <= bounds[b]
    ensures forall j :: i <= j < b ==> d > bounds[j]
    decreases |bounds| - i
  {
    if i == |bounds| || d <= bounds[i] then i else BucketIndex(d, bounds, i + 1)
  }

  /** Bucket i holds the durations in (bounds[i-1], bounds[i]]. */
  predicate InBucket(d: real, bounds: seq<real>, i: nat)
    requires i <= |bounds|
  {
    && (i > 0 ==> bounds[i - 1] < d)
    && (i < |bounds| ==> d <= bounds[i])
  }

  ghost predicate Increasing(bounds: seq<real>) {
    forall i, j :: 0 <= i < j < |bounds| ==> bounds[i] < bounds[j]
  }

  lemma BucketIndexIsBucket(d: real, bounds: seq<real>, i: nat)
    requires Increasing(bounds) && i <= |bounds|
    ensures InBucket(d, bounds, i) <==> i == BucketIndex(d, bounds, 0)
  {
  }

  lemma BoundsIncrease()
    ensures Increasing(DURATION_BOUNDS) && |DURATION_BOUNDS| == 7
  {
  }

  // ---- What a histogram should hold: the observations themselves ----

  datatype Observation = Observation(duration: real, at: int)

  function Total(obs: seq<Observation>): real {
    if obs == [] then 0.0 else Total(obs[..|obs| - 1]) + obs[|obs| - 1].duration
  }

  function CountIn(obs: seq<Observation>, bounds: seq<real>, i: nat): nat
    requires i <= |bounds|
  {
    if obs == [] then 0
    else CountIn(obs[..|obs| - 1], bounds, i) + if InBucket(obs[|obs| - 1].duration, bounds, i) then 1 else 0
  }

  /** The histogram of a sequence of observations (modulo 2^64, as the counts are uint64). */
  function Summary(obs: seq<Observation>, bounds: seq<real>): Hist
    requires obs != []
  {
    Hist(|obs| % TWO_TO_64, Total(obs),
         seq(|bounds| + 1, i requires 0 <= i <= |bounds| => CountIn(obs, bounds, i) % TWO_TO_64),
         obs[|obs| - 1].at)
  }

  /** Observing is summarising one more observation, starting from a new histogram. */
  lemma ObserveSummary(obs: seq<Observation>, d: real, now: int, bounds: seq<real>)
    requires Increasing(bounds)
    ensures (if obs == [] then NewHist(bounds) else Summary(obs, bounds)).Observe(d, now, bounds)
            == Summary(obs + [Observation(d, now)], bounds)
  {
    var h := if obs == [] then NewHist(bounds) else Summary(obs, bounds);
    var more := obs + [Observation(d, now)];
    assert more[..|obs|] == obs;
    ModIncrement(|obs|, TWO_TO_64);
    var b := BucketIndex(d, bounds, 0);
    var seen, wanted := h.Observe(d, now, bounds), Summary(more, bounds);
    forall i | 0 <= i <= |bounds|
      ensures seen.buckets[i] == wanted.buckets[i]
    {
      BucketIndexIsBucket(d, bounds, i);
      ModIncrement(CountIn(obs, bounds, i), TWO_TO_64);
      assert h.buckets[i] == CountIn(obs, bounds, i) % TWO_TO_64;
      assert CountIn(more, bounds, i) == CountIn(obs, bounds, i) + if i == b then 1 else 0;
    }
    assert seen.buckets == wanted.buckets;
    assert more[..|more| - 1] == obs && Total(more) == Total(obs) + d;
  }

  function SumBuckets(obs: seq<Observation>, bounds: seq<real>, n: nat): nat
    requires n <= |bounds| + 1
  {
    if n == 0 then 0 else SumBuckets(obs, bounds, n - 1) + CountIn(obs, bounds, n - 1)
  }

  lemma {:induction false} SumBucketsSnoc(obs: seq<Observation>, o: Observation, bounds: seq<real>, n: nat)
    requires Increasing(bounds) && n <= |bounds| + 1
    ensures SumBuckets(obs + [o], bounds, n)
            == SumBuckets(obs, bounds, n) + if BucketIndex(o.duration, bounds, 0) < n then 1 else 0
  {
    assert (obs + [o])[..|obs|] == obs;
    if n > 0 {
      SumBucketsSnoc(obs, o, bounds, n - 1);
      BucketIndexIsBucket(o.duration, bounds, n - 1);
    }
  }

  lemma {:induction false} SumBucketsNil(bounds: seq<real>, n: nat)
    requires n <= |bounds| + 1
    ensures SumBuckets([], bounds, n) == 0
  {
    if n > 0 {
      SumBucketsNil(bounds, n - 1);
    }
  }

  /** Every observation falls into exactly one bucket: the buckets add up to the count. */
  lemma {:induction false} BucketsAddUp(obs: seq<Observation>, bounds: seq<real>)
    requires Increasing(bounds)
    ensures SumBuckets(obs, bounds, |bounds| + 1) == |obs|
    decreases |obs|
  {
    if obs == [] {
      SumBucketsNil(bounds, |bounds| + 1);
    } else {
      var init, last := obs[..|obs| - 1], obs[|obs| - 1];
      BucketsAddUp(init, bounds);
      SumBucketsSnoc(init, last, bounds, |bounds| + 1);
      assert obs == init + [last];
    }
  }

  // ---- The cache of histograms ----

  /** A histogram over the duration bounds. */
  type DurationHist = h: Hist | h.Valid(DURATION_BOUNDS)
    ghost witness NewHist(DURATION_BOUNDS)

  type HistCache = Lru.State<string, DurationHist>

  /** Get, observe in place, Add. Returns the cache and the state that is reported. */
  function ObserveKey(c: HistCache, k: string, d: real, now: int): (HistCache, DurationHist)
  {
    var (c1, cur) := c.Get(k);
    var h := (if cur.None? then NewHist(DURATION_BOUNDS) else cur.value).Observe(d, now, DURATION_BOUNDS);
    (c1.Add(k, h), h)
  }

  predicate Stale(h: Hist, now: int) {
    Sub(now, h.lastSeen) >= HISTOGRAM_TTL
  }

  /** The sweep loop over a snapshot of the keys. */
  function SweepKeys(c: HistCache, keys: seq<string>, now: int): HistCache
    decreases |keys|
  {
    if keys == [] then c else SweepKeys(SweepKey(c, keys[0], now), keys[1..], now)
  }

  function SweepKey(c: HistCache, k: string, now: int): HistCache {
    if k in c.items && Stale(c.items[k], now) then c.Remove(k) else c
  }

  function Sweep(c: HistCache, now: int): HistCache {
    SweepKeys(c, c.order, now)
  }

  /** A sweep that gives up at the first fresh key. */
  function SweepUntilFresh(c: HistCache, keys: seq<string>, now: int): HistCache
    decreases |keys|
  {
    if keys == [] || keys[0] !in c.items || !Stale(c.items[keys[0]], now) then c
    else SweepUntilFresh(c.Remove(keys[0]), keys[1..], now)
  }

  /** Oldest to newest in the cache is oldest to newest by last observation. */
  ghost predicate Sorted(c: HistCache) {
    forall i, j :: 0 <= i < j < |c.order| && c.order[i] in c.items && c.order[j] in c.items ==>
      c.items[c.order[i]].lastSeen <= c.items[c.order[j]].lastSeen
  }

  ghost predicate SeenBy(c: HistCache, now: int) {
    forall k :: k in c.items ==> c.items[k].lastSeen <= now
  }

  ghost predicate WellFormed(c: HistCache) {
    c.Valid() && c.capacity == HISTOGRAM_CACHE_SIZE
  }

  lemma OrderedKeyCached(c: HistCache, i: int)
    requires c.Valid() && 0 <= i < |c.order|
    ensures c.order[i] in c.items
  {
    assert c.order[i] in Elements(c.order);
  }

  /** Dropping the oldest key of a sorted cache leaves a sorted cache. */
  lemma RemoveOldest(c: HistCache)
    requires c.Valid() && c.order != []
    ensures c.Remove(c.order[0]) == Lru.State(c.capacity, c.order[1..], c.items - {c.order[0]})
    ensures c.Remove(c.order[0]).Valid()
    ensures Sorted(c) ==> Sorted(c.Remove(c.order[0]))
  {
    OrderedKeyCached(c, 0);
    Lru.RemoveProps(c, c.order[0]);
  }

  lemma AllFreshSweep(c: HistCache, keys: seq<string>, now: int)
    requires forall k :: k in keys && k in c.items ==> !Stale(c.items[k], now)
    ensures SweepKeys(c, keys, now) == c
    decreases |keys|
  {
    if keys != [] {
      assert keys[0] in keys;
      AllFreshSweep(c, keys[1..], now);
    }
  }

  lemma FreshTail(c: HistCache, now: int)
    requires c.Valid() && Sorted(c) && c.order != [] && !Stale(c.items[c.order[0]], now)
    ensures forall k :: k in c.items ==> !Stale(c.items[k], now)
  {
    forall k | k in c.items
      ensures !Stale(c.items[k], now)
    {
      assert k in Elements(c.order);
      var i :| 0 <= i < |c.order| && c.order[i] == k;
      OrderedKeyCached(c, 0);
    }
  }

  lemma FreshSweep(c: HistCache, now: int)
    requires c.Valid() && Sorted(c) && c.order != [] && !Stale(c.items[c.order[0]], now)
    ensures Sweep(c, now) == c && SweepUntilFresh(c, c.order, now) == c
    ensures forall k :: k in c.items ==> k in c.order && !Stale(c.items[k], now)
  {
    FreshTail(c, now);
    AllFreshSweep(c, c.order, now);
    CachedKeysOrdered(c);
  }

  lemma SweepStep(c: HistCache, now: int)
    requires c.Valid() && c.order != [] && Stale(c.items[c.order[0]], now)
    requires c.order[0] in c.items
    ensures Sweep(c, now) == Sweep(c.Remove(c.order[0]), now)
    ensures SweepUntilFresh(c, c.order, now) == SweepUntilFresh(c.Remove(c.order[0]), c.Remove(c.order[0]).order, now)
  {
    RemoveOldest(c);
  }

  lemma {:induction false} SweepCutsPrefix(c: HistCache, now: int) returns (n: nat)
    requires c.Valid() && Sorted(c)
    ensures n <= |c.order| && Sweep(c, now).order == c.order[n..]
    ensures Sweep(c, now).Valid() && Sorted(Sweep(c, now)) && Sweep(c, now).capacity == c.capacity
    ensures Sweep(c, now) == SweepUntilFresh(c, c.order, now)
    ensures forall i :: 0 <= i < |c.order| ==> c.order[i] in c.items && (Stale(c.items[c.order[i]], now) <==> i < n)
    decreases |c.order|
  {
    CachedKeysOrdered(c);
    if c.order != [] && Stale(c.items[c.order[0]], now) {
      var rest := c.Remove(c.order[0]);
      RemoveOldest(c);
      SweepStep(c, now);
      var m := SweepCutsPrefix(rest, now);
      n := m + 1;
      OneMoreStale(c, rest, now, m);
    } else {
      n := 0;
      if c.order != [] {
        FreshSweep(c, now);
      }
    }
  }

  lemma OneMoreStale(c: HistCache, rest: HistCache, now: int, m: nat)
    requires c.Valid() && c.order != [] && m < |c.order| && Stale(c.items[c.order[0]], now)
    requires rest.order == c.order[1..] && rest.items == c.items - {c.order[0]}
    requires forall i :: 0 <= i < |rest.order| ==>
               rest.order[i] in rest.items && (Stale(rest.items[rest.order[i]], now) <==> i < m)
    ensures rest.order[m..] == c.order[m + 1..]
    ensures forall i :: 0 <= i < |c.order| ==> c.order[i] in c.items && (Stale(c.items[c.order[i]], now) <==> i < m + 1)
  {
    CachedKeysOrdered(c);
    forall i | 0 < i < |c.order|
      ensures Stale(c.items[c.order[i]], now) <==> i < m + 1
    {
      assert rest.order[i - 1] == c.order[i];
    }
  }

  /**
   * On a cache sorted by last observation the sweep removes exactly a prefix of the keys: the `n`
   * oldest, all of them last observed 24 hours or more before, and no other key was.
   */
  lemma SweepRemovesPrefix(c: HistCache, now: int) returns (n: nat)
    requires c.Valid() && Sorted(c)
    ensures n <= |c.order| && Sweep(c, now).order == c.order[n..]
    ensures Sweep(c, now).Valid() && Sorted(Sweep(c, now)) && Sweep(c, now).capacity == c.capacity
    ensures Sweep(c, now) == SweepUntilFresh(c, c.order, now)
    ensures forall i :: 0 <= i < |c.order| ==>
              c.order[i] in c.items && (now - c.items[c.order[i]].lastSeen >= 86_400_000_000_000 <==> i < n)
    ensures forall k :: k in Sweep(c, now).items <==>
              k in c.items && now - c.items[k].lastSeen < 86_400_000_000_000
    ensures forall k :: k in Sweep(c, now).items ==> Sweep(c, now).items[k] == c.items[k]
  {
    n := SweepCutsPrefix(c, now);
    var d := Sweep(c, now);
    SweepKeepsEntries(c, c.order, now);
    CachedKeysOrdered(c);
    CachedKeysOrdered(d);
    forall k | k in c.items
      ensures k in d.items <==> !Stale(c.items[k], now)
    {
      var i := KeyInSuffix(c, d, k, n);
    }
  }

  lemma KeyInSuffix(c: HistCache, d: HistCache, k: string, n: nat) returns (i: nat)
    requires c.Valid() && d.Valid() && k in c.items && n <= |c.order| && d.order == c.order[n..]
    ensures i < |c.order| && c.order[i] == k
    ensures k in d.items <==> n <= i
  {
    CachedKeysOrdered(c);
    CachedKeysOrdered(d);
    i :| 0 <= i < |c.order| && c.order[i] == k;
    if n <= i {
      assert d.order[i - n] == k;
    }
  }

  // ---- Observing keeps the cache sorted ----

  /** Leaving one key out keeps the order of the others. */
  lemma SkipSorted(items: map<string, DurationHist>, capacity: nat, order: seq<string>, n: nat, kept: seq<string>)
    requires Sorted(Lru.State(capacity, order, items)) && n < |order|
    requires |kept| == |order| - 1 && forall i :: 0 <= i < |kept| ==> kept[i] == order[if i < n then i else i + 1]
    ensures Sorted(Lru.State(capacity, kept, items))
  {
    forall i, j | 0 <= i < j < |kept| && kept[i] in items && kept[j] in items
      ensures items[kept[i]].lastSeen <= items[kept[j]].lastSeen
    {
      var i', j' := if i < n then i else i + 1, if j < n then j else j + 1;
      assert kept[i] == order[i'] && kept[j] == order[j'];
    }
  }

  lemma WithoutAt<T>(order: seq<T>, k: T) returns (n: nat)
    requires NoDup(order) && k in order
    ensures n < |order| && |Without(order, k)| == |order| - 1
    ensures forall i :: 0 <= i < |order| - 1 ==> Without(order, k)[i] == order[if i < n then i else i + 1]
  {
    n :| 0 <= n < |order| && order[n] == k;
    var a, b := order[..n], order[n + 1..];
    assert order == a + [k] + b;
    WithoutSplit(a, k, b);
  }

  lemma WithoutSorted(c: HistCache, k: string)
    requires Sorted(c) && NoDup(c.order)
    ensures Sorted(Lru.State(c.capacity, Without(c.order, k), c.items))
  {
    if k in c.order {
      var n := WithoutAt(c.order, k);
      SkipSorted(c.items, c.capacity, c.order, n, Without(c.order, k));
    } else {
      WithoutAbsent(c.order, k);
    }
  }

  /** The order an observation leaves: the other keys as they were, the observed one last. */
  lemma ObservedOrder(c: HistCache, k: string, h: DurationHist)
    requires c.Valid()
    ensures var c' := c.Get(k).0.Add(k, h);
            if k in c.items || |c.order| < c.capacity then
              c'.order == Without(c.order, k) + [k] && c'.items == c.items[k := h]
            else
              c'.order == c.order[1..] + [k] && c'.items == c.items[k := h] - {c.order[0]}
  {
    Lru.GetProps(c, k);
    var c1 := c.Get(k).0;
    if k in c.items {
      WithoutProps(c.order, k);
      WithoutSplit(Without(c.order, k), k, []);
      assert c1.order == Without(c.order, k) + [k] + [];
      Lru.AddFits(c1, k, h);
    } else if |c.order| < c.capacity {
      Lru.AddFits(c1, k, h);
    } else {
      Lru.AddEvicts(c1, k, h);
    }
  }

  lemma SortedSnoc(kept: seq<string>, c: HistCache, c': HistCache, k: string, now: int)
    requires Sorted(Lru.State(c.capacity, kept, c.items)) && SeenBy(c, now)
    requires c'.order == kept + [k] && k in c'.items && c'.items[k].lastSeen == now
    requires forall x :: x in kept ==> x != k && x in c.items && x in c'.items && c'.items[x] == c.items[x]
    ensures Sorted(c')
  {
  }

  lemma ObserveProps(c: HistCache, k: string, d: real, now: int)
    requires WellFormed(c) && SeenBy(c, now)
    ensures var (c', h) := ObserveKey(c, k, d, now);
            WellFormed(c') && SeenBy(c', now) && h.lastSeen == now
            && c'.order != [] && c'.order[|c'.order| - 1] == k && k in c'.items && c'.items[k] == h
  {
    var (c', h) := ObserveKey(c, k, d, now);
    Lru.GetProps(c, k);
    Lru.AddProps(c.Get(k).0, k, h);
    ObservedOrder(c, k, h);
  }

  lemma CachedKeysOrdered(c: HistCache)
    requires c.Valid()
    ensures forall x :: x in c.order <==> x in c.items
  {
    assert forall x :: x in c.order <==> x in Elements(c.order);
  }

  /** An observation at or after every earlier one keeps the cache sorted. */
  lemma ObserveKeepsSorted(c: HistCache, k: string, d: real, now: int)
    requires WellFormed(c) && Sorted(c) && SeenBy(c, now)
    ensures Sorted(ObserveKey(c, k, d, now).0)
  {
    var (c', h) := ObserveKey(c, k, d, now);
    ObserveProps(c, k, d, now);
    ObservedOrder(c, k, h);
    CachedKeysOrdered(c);
    if k in c.items || |c.order| < c.capacity {
      WithoutSorted(c, k);
      WithoutProps(c.order, k);
      SortedSnoc(Without(c.order, k), c, c', k, now);
    } else {
      OldestDropped(c, c', k, h, now);
    }
  }

  lemma OldestDropped(c: HistCache, c': HistCache, k: string, h: DurationHist, now: int)
    requires NoDup(c.order) && (forall x :: x in c.order ==> x in c.items)
    requires Sorted(c) && SeenBy(c, now) && k !in c.items && c.order != [] && h.lastSeen == now
    requires c'.order == c.order[1..] + [k] && c'.items == c.items[k := h] - {c.order[0]}
    requires k in c'.items
    ensures Sorted(c')
  {
    var oldest, kept := c.order[0], c.order[1..];
    assert forall i :: 0 <= i < |kept| ==> kept[i] == c.order[i + 1];
    SkipSorted(c.items, c.capacity, c.order, 0, kept);
    forall x | x in kept
      ensures x != k && x in c.items && x in c'.items && c'.items[x] == c.items[x]
    {
      NotOldest(c.order, x);
    }
    SortedSnoc(kept, c, c', k, now);
  }

  lemma NotOldest(order: seq<string>, x: string)
    requires NoDup(order) && order != [] && x in order[1..]
    ensures x != order[0] && x in order
  {
    var i :| 0 <= i < |order| - 1 && order[1..][i] == x;
    assert order[i + 1] == x;
  }

  /** When the cache is full, a new series takes the place of a least recently observed one. */
  lemma EvictsLeastRecentlyObserved(c: HistCache, k: string, d: real, now: int)
    requires WellFormed(c) && Sorted(c) && k !in c.items && |c.order| == c.capacity
    ensures var victim := c.order[0];
            && victim in c.items
            && ObserveKey(c, k, d, now).0.items.Keys == c.items.Keys + {k} - {victim}
            && forall x :: x in c.items ==> c.items[victim].lastSeen <= c.items[x].lastSeen
  {
    var victim := c.order[0];
    OrderedKeyCached(c, 0);
    Lru.AddEvicts(c, k, ObserveKey(c, k, d, now).1);
    forall x | x in c.items
      ensures c.items[victim].lastSeen <= c.items[x].lastSeen
    {
      assert x in Elements(c.order);
      var i :| 0 <= i < |c.order| && c.order[i] == x;
    }
  }

  // ---- A whole run ----

  /** What the handler does to the histogram cache: observe a series, or sweep. */
  datatype Op = Observed(key: string, duration: real, at: int) | Swept(at: int)

  ghost predicate ClockOrdered(ops: seq<Op>) {
    forall i, j :: 0 <= i < j < |ops| ==> ops[i].at <= ops[j].at
  }

  function HistAfter(ops: seq<Op>): HistCache
    decreases |ops|
  {
    if ops == [] then Lru.Empty(HISTOGRAM_CACHE_SIZE)
    else Apply(HistAfter(ops[..|ops| - 1]), ops[|ops| - 1])
  }

  function Apply(c: HistCache, op: Op): HistCache {
    match op
    case Observed(k, d, at) => ObserveKey(c, k, d, at).0
    case Swept(at) => Sweep(c, at)
  }

  lemma {:induction false} SweepKeepsEntries(c: HistCache, keys: seq<string>, now: int)
    ensures forall k :: k in SweepKeys(c, keys, now).items ==>
              k in c.items && SweepKeys(c, keys, now).items[k] == c.items[k]
    decreases |keys|
  {
    if keys != [] {
      if keys[0] in c.items && Stale(c.items[keys[0]], now) {
        SweepKeepsEntries(c.Remove(keys[0]), keys[1..], now);
      } else {
        SweepKeepsEntries(c, keys[1..], now);
      }
    }
  }

  /** The series observed. */
  function Observes(ops: seq<Op>): set<string>
    decreases |ops|
  {
    if ops == [] then {}
    else Observes(ops[..|ops| - 1]) + match ops[|ops| - 1] case Observed(k, _, _) => {k} case Swept(_) => {}
  }

  /**
   * In every reachable state the cache, oldest to newest, is sorted by last observation: recency of use
   * and recency of observation coincide.
   */
  lemma {:induction false} AlwaysSorted(ops: seq<Op>, now: int)
    requires ClockOrdered(ops) && (ops != [] ==> ops[|ops| - 1].at <= now)
    ensures WellFormed(HistAfter(ops)) && Sorted(HistAfter(ops)) && SeenBy(HistAfter(ops), now)
    decreases |ops|
  {
    if ops != [] {
      var init, last := ops[..|ops| - 1], ops[|ops| - 1];
      AlwaysSorted(init, last.at);
      var c := HistAfter(init);
      match last {
        case Observed(k, d, at) =>
          ObserveProps(c, k, d, at);
          ObserveKeepsSorted(c, k, d, at);
        case Swept(at) =>
          var n := SweepRemovesPrefix(c, at);
      }
    }
  }

  /** After a sweep every cached series was seen less than 24 hours before it. */
  lemma SweepKeepsOnlyFresh(ops: seq<Op>, now: int)
    requires ClockOrdered(ops) && (ops != [] ==> ops[|ops| - 1].at <= now)
    ensures forall k :: k in Sweep(HistAfter(ops), now).items ==>
              now - Sweep(HistAfter(ops), now).items[k].lastSeen < 86_400_000_000_000
  {
    AlwaysSorted(ops, now);
    var n := SweepRemovesPrefix(HistAfter(ops), now);
  }

  // ---- What each series should hold ----

  /** All observations of a series. */
  function All(ops: seq<Op>, k: string): seq<Observation>
    decreases |ops|
  {
    if ops == [] then []
    else
      var before := All(ops[..|ops| - 1], k);
      match ops[|ops| - 1]
      case Observed(x, d, at) => if x == k then before + [Observation(d, at)] else before
      case Swept(_) => before
  }

  /** The last observation of a series lies 24 hours or more before `now`. */
  predicate Expired(obs: seq<Observation>, now: int) {
    obs != [] && now - obs[|obs| - 1].at >= 86_400_000_000_000
  }

  /** The observations of a series since a sweep last found it expired. */
  function Live(ops: seq<Op>, k: string): seq<Observation>
    decreases |ops|
  {
    if ops == [] then []
    else
      var before := Live(ops[..|ops| - 1], k);
      match ops[|ops| - 1]
      case Observed(x, d, at) => if x == k then before + [Observation(d, at)] else before
      case Swept(at) => if Expired(before, at) then [] else before
  }

  /** The cache holds exactly the live series, each with the summary of its live observations. */
  ghost predicate Summarises(c: HistCache, ops: seq<Op>) {
    forall k :: (k in c.items <==> Live(ops, k) != [])
                && (k in c.items ==> c.items[k] == Summary(Live(ops, k), DURATION_BOUNDS))
  }

  lemma ObserveSummarises(c: HistCache, ops: seq<Op>, k: string, d: real, at: int)
    requires WellFormed(c) && Summarises(c, ops)
    requires k in c.items || |c.order| < c.capacity
    ensures Summarises(ObserveKey(c, k, d, at).0, ops + [Observed(k, d, at)])
    ensures ObserveKey(c, k, d, at).1 == Summary(Live(ops + [Observed(k, d, at)], k), DURATION_BOUNDS)
  {
    var (c', h) := ObserveKey(c, k, d, at);
    var all := ops + [Observed(k, d, at)];
    assert all[..|ops|] == ops;
    ObservedOrder(c, k, h);
    BoundsIncrease();
    ObserveSummary(Live(ops, k), d, at, DURATION_BOUNDS);
    assert Live(all, k) == Live(ops, k) + [Observation(d, at)];
    assert forall x :: x != k ==> Live(all, x) == Live(ops, x);
  }

  lemma SweepSummarises(c: HistCache, ops: seq<Op>, at: int)
    requires WellFormed(c) && Sorted(c) && Summarises(c, ops)
    ensures Summarises(Sweep(c, at), ops + [Swept(at)])
  {
    var all := ops + [Swept(at)];
    assert all[..|ops|] == ops;
    var n := SweepRemovesPrefix(c, at);
    forall k
      ensures (k in Sweep(c, at).items <==> Live(all, k) != [])
              && (k in Sweep(c, at).items ==> Sweep(c, at).items[k] == Summary(Live(all, k), DURATION_BOUNDS))
    {
      if k in c.items {
        assert Stale(c.items[k], at) <==> Expired(Live(ops, k), at);
      }
    }
  }

  lemma RoomFor(c: HistCache, k: string, universe: set<string>)
    requires WellFormed(c) && c.items.Keys <= universe && k in universe && |universe| <= HISTOGRAM_CACHE_SIZE
    ensures k in c.items || |c.order| < c.capacity
  {
    if k !in c.items {
      NoDupCardinality(c.order);
      SubsetCardinality(c.items.Keys + {k}, universe);
    }
  }

  /** The series that a sweep has not found expired since their last observation. */
  function LiveKeys(ops: seq<Op>): set<string> {
    set k | k in Observes(ops) && Live(ops, k) != []
  }

  /** At no time have there been more live series than the cache has room for. */
  ghost predicate NeverCrowded(ops: seq<Op>)
    decreases |ops|
  {
    |LiveKeys(ops)| <= 50000 && (ops == [] || NeverCrowded(ops[..|ops| - 1]))
  }

  /** At all times the cache has held the live series and their summaries. */
  ghost predicate AlwaysSummarises(ops: seq<Op>)
    decreases |ops|
  {
    Summarises(HistAfter(ops), ops) && (ops == [] || AlwaysSummarises(ops[..|ops| - 1]))
  }

  lemma {:induction false} LiveAreObserved(ops: seq<Op>, k: string)
    requires Live(ops, k) != []
    ensures k in Observes(ops)
    decreases |ops|
  {
    if Live(ops[..|ops| - 1], k) != [] {
      LiveAreObserved(ops[..|ops| - 1], k);
    }
  }

  lemma LiveKeysAre(ops: seq<Op>)
    ensures forall k :: k in LiveKeys(ops) <==> Live(ops, k) != []
  {
    forall k | Live(ops, k) != []
      ensures k in LiveKeys(ops)
    {
      LiveAreObserved(ops, k);
    }
  }

  lemma CachedAreLive(c: HistCache, ops: seq<Op>)
    requires Summarises(c, ops)
    ensures c.items.Keys == LiveKeys(ops)
  {
    LiveKeysAre(ops);
  }

  /** There is room for a series if it and the other live ones fit the cache. */
  lemma RoomForLive(c: HistCache, ops: seq<Op>, k: string, d: real, at: int)
    requires WellFormed(c) && Summarises(c, ops)
    requires |LiveKeys(ops + [Observed(k, d, at)])| <= HISTOGRAM_CACHE_SIZE
    ensures k in c.items || |c.order| < c.capacity
  {
    var all := ops + [Observed(k, d, at)];
    assert all[..|ops|] == ops;
    CachedAreLive(c, ops);
    LiveKeysAre(ops);
    LiveKeysAre(all);
    assert Live(all, k) != [] && forall x :: x != k ==> Live(all, x) == Live(ops, x);
    RoomFor(c, k, LiveKeys(all));
  }

  /**
   * As long as at most 50000 series are live at any time nothing is evicted for room, and the state of every
   * series is the summary of its observations since a sweep last found it expired.
   */
  lemma {:induction false} RunSummarises(ops: seq<Op>)
    requires ClockOrdered(ops) && NeverCrowded(ops)
    ensures AlwaysSummarises(ops)
    decreases |ops|
  {
    if ops != [] {
      var init, last := ops[..|ops| - 1], ops[|ops| - 1];
      var c := HistAfter(init);
      assert ops == init + [last];
      RunSummarises(init);
      AlwaysSorted(init, last.at);
      match last {
        case Observed(k, d, at) =>
          RoomForLive(c, init, k, d, at);
          ObserveSummarises(c, init, k, d, at);
        case Swept(at) =>
          SweepSummarises(c, init, at);
      }
    }
  }

  /** With more live series than that, the cache does not hold them all. */
  lemma CrowdingEvicts(ops: seq<Op>)
    requires ClockOrdered(ops) && |LiveKeys(ops)| > 50000
    ensures !Summarises(HistAfter(ops), ops)
    ensures exists k :: k in LiveKeys(ops) && k !in HistAfter(ops).items
  {
    var c := HistAfter(ops);
    AlwaysSorted(ops, if ops == [] then 0 else ops[|ops| - 1].at);
    NoDupCardinality(c.order);
    if LiveKeys(ops) <= c.items.Keys {
      SubsetCardinality(LiveKeys(ops), c.items.Keys);
    }
    LiveKeysAre(ops);
  }

  /** The bound is exact: the cache summarises all live series at all times if and only if they never exceed it. */
  lemma {:induction false} SummarisesIff(ops: seq<Op>)
    requires ClockOrdered(ops)
    ensures AlwaysSummarises(ops) <==> NeverCrowded(ops)
    decreases |ops|
  {
    if NeverCrowded(ops) {
      RunSummarises(ops);
    }
    if |LiveKeys(ops)| > HISTOGRAM_CACHE_SIZE {
      CrowdingEvicts(ops);
    }
    if ops != [] {
      SummarisesIff(ops[..|ops| - 1]);
    }
  }

  lemma {:induction false} FewAreNeverCrowded(ops: seq<Op>)
    requires |Observes(ops)| <= HISTOGRAM_CACHE_SIZE
    ensures NeverCrowded(ops)
    decreases |ops|
  {
    SubsetCardinality(LiveKeys(ops), Observes(ops));
    if ops != [] {
      SubsetCardinality(Observes(ops[..|ops| - 1]), Observes(ops));
      FewAreNeverCrowded(ops[..|ops| - 1]);
    }
  }

  lemma EarlierOps(ops: seq<Op>, last: Op)
    requires ClockOrdered(ops + [last])
    ensures ClockOrdered(ops) && (ops != [] ==> ops[|ops| - 1].at <= last.at)
    ensures NeverCrowded(ops + [last]) ==> NeverCrowded(ops)
  {
    var all := ops + [last];
    assert all[..|ops|] == ops;
    assert forall i :: 0 <= i < |ops| ==> all[i] == ops[i];
    assert all[|ops|] == last;
  }

  /** What the last operation of a run reports when it is an observation: the summary of its live series. */
  lemma ReportedState(ops: seq<Op>, k: string, d: real, at: int)
    requires ClockOrdered(ops + [Observed(k, d, at)]) && NeverCrowded(ops + [Observed(k, d, at)])
    ensures ObserveKey(HistAfter(ops), k, d, at).1
            == Summary(Live(ops + [Observed(k, d, at)], k), DURATION_BOUNDS)
  {
    EarlierOps(ops, Observed(k, d, at));
    RunSummarises(ops);
    AlwaysSorted(ops, at);
    RoomForLive(HistAfter(ops), ops, k, d, at);
    ObserveSummarises(HistAfter(ops), ops, k, d, at);
  }

  // ---- When nothing is ever forgotten ----

  /** A sweep found the series expired. */
  ghost predicate WasForgotten(ops: seq<Op>, k: string) {
    exists i :: 0 <= i < |ops| && ops[i].Swept? && Expired(All(ops[..i], k), ops[i].at)
  }

  lemma {:induction false} LiveIsSuffix(ops: seq<Op>, k: string)
    ensures |Live(ops, k)| <= |All(ops, k)|
    ensures Live(ops, k) == All(ops, k)[|All(ops, k)| - |Live(ops, k)|..]
    decreases |ops|
  {
    if ops != [] {
      LiveIsSuffix(ops[..|ops| - 1], k);
    }
  }

  /** A series reports its whole history if and only if no sweep ever found it expired. */
  lemma {:induction false} WholeHistoryIff(ops: seq<Op>, k: string)
    ensures Live(ops, k) == All(ops, k) <==> !WasForgotten(ops, k)
    decreases |ops|
  {
    if ops != [] {
      var init, last := ops[..|ops| - 1], ops[|ops| - 1];
      WholeHistoryIff(init, k);
      LiveIsSuffix(init, k);
      assert forall i :: 0 <= i < |init| ==> init[..i] == ops[..i];
      assert WasForgotten(ops, k) <==>
             WasForgotten(init, k) || (last.Swept? && Expired(All(init, k), last.at));
    }
  }

  /** Consecutive observations of the series are less than 24 hours apart. */
  ghost predicate NeverIdle(obs: seq<Observation>) {
    forall i :: 0 < i < |obs| ==> obs[i].at - obs[i - 1].at < 86_400_000_000_000
  }

  lemma NeverIdleSnoc(obs: seq<Observation>, o: Observation)
    requires NeverIdle(obs + [o])
    ensures NeverIdle(obs) && !Expired(obs, o.at)
  {
    var more := obs + [o];
    assert forall i :: 0 <= i < |obs| ==> more[i] == obs[i];
    if obs != [] {
      assert more[|obs|].at - more[|obs| - 1].at < 86_400_000_000_000;
    }
  }

  /** Before an observation that comes less than 24 hours after the previous one, no sweep can have expired it. */
  lemma {:induction false} NotExpiredBefore(ops: seq<Op>, k: string, now: int)
    requires ClockOrdered(ops) && (ops != [] ==> ops[|ops| - 1].at <= now)
    requires NeverIdle(All(ops, k)) && !Expired(All(ops, k), now)
    ensures !WasForgotten(ops, k)
    decreases |ops|
  {
    if ops != [] {
      var init, last := ops[..|ops| - 1], ops[|ops| - 1];
      assert forall i :: 0 <= i < |init| ==> init[..i] == ops[..i];
      if last.Observed? && last.key == k {
        var obs := All(init, k);
        assert All(ops, k) == obs + [Observation(last.duration, last.at)];
        NeverIdleSnoc(obs, Observation(last.duration, last.at));
      }
      NotExpiredBefore(init, k, last.at);
    }
  }

  /** A series that no sweep has found expired is reported with the summary of all its durations. */
  lemma ReportedWhole(ops: seq<Op>, k: string, d: real, at: int)
    requires ClockOrdered(ops + [Observed(k, d, at)]) && NeverCrowded(ops + [Observed(k, d, at)])
    requires !WasForgotten(ops, k)
    ensures ObserveKey(HistAfter(ops), k, d, at).1
            == Summary(All(ops + [Observed(k, d, at)], k), DURATION_BOUNDS)
  {
    assert (ops + [Observed(k, d, at)])[..|ops|] == ops;
    WholeHistoryIff(ops, k);
    ReportedState(ops, k, d, at);
  }

  /** Less than 24 hours between consecutive observations of a series keep it from being forgotten. */
  lemma NeverForgotten(ops: seq<Op>, k: string, d: real, at: int)
    requires ClockOrdered(ops + [Observed(k, d, at)]) && NeverIdle(All(ops + [Observed(k, d, at)], k))
    ensures !WasForgotten(ops, k)
  {
    var seen := Observed(k, d, at);
    assert (ops + [seen])[..|ops|] == ops;
    assert All(ops + [seen], k) == All(ops, k) + [Observation(d, at)];
    EarlierOps(ops, seen);
    NeverIdleSnoc(All(ops, k), Observation(d, at));
    NotExpiredBefore(ops, k, at);
  }

  /**
   * With at most 50000 live series and less than 24 hours between consecutive observations of series `k`, every
   * observation of `k` reports the summary of all its durations so far: it is never reset.
   */
  lemma NeverReset(ops: seq<Op>, k: string, d: real, at: int)
    requires ClockOrdered(ops + [Observed(k, d, at)]) && NeverCrowded(ops + [Observed(k, d, at)])
    requires NeverIdle(All(ops + [Observed(k, d, at)], k))
    ensures ObserveKey(HistAfter(ops), k, d, at).1
            == Summary(All(ops + [Observed(k, d, at)], k), DURATION_BOUNDS)
  {
    NeverForgotten(ops, k, d, at);
    ReportedWhole(ops, k, d, at);
  }
}
