// The cumulative job and run counters, as an algorithm over the bounded counter cache.
//
// An accepted event contacts one group of 40 counters. The first event whose key is not
// cached stores 0 under the 39 other keys of its group, in the (arbitrary) order the
// lookup tables are iterated in; every event then stores one more than it loaded.
module Counters {
  import opened Basics
  import opened Telemetry
  import opened CacheKeys
  import Lru

  const METRICS_MAX_CACHE_SIZE: nat := 100000

  type CounterCache = Lru.State<string, int>

  /** What an accepted event means to the cache: the key it increments and the keys it seeds on a miss. */
  datatype Contact = Contact(group: Group, key: string, seeds: seq<string>)

  /** The key and the seeds are the group's 40 keys, each once. */
  ghost predicate ValidContact(e: Contact) {
    && NoDup(e.seeds)
    && |e.seeds| == 39
    && e.key !in Elements(e.seeds)
    && Elements(e.seeds) + {e.key} == GroupKeys(e.group)
  }

  ghost predicate ValidRun(run: seq<Contact>) {
    forall i :: 0 <= i < |run| ==> ValidContact(run[i])
  }

  /** Stores 0 under each key, in order. */
  function StoreZeros(c: CounterCache, ks: seq<string>): CounterCache
    decreases |ks|
  {
    if ks == [] then c else StoreZeros(c.Add(ks[0], 0), ks[1..])
  }

  function Loaded(v: Option<int>): int {
    match v
    case None => 0
    case Some(n) => n
  }

  /** One accepted event: load, seed on a miss, store the increment. */
  function Bump(c: CounterCache, e: Contact): CounterCache {
    var (c1, cur) := c.Get(e.key);
    var c2 := if cur.None? then StoreZeros(c1, e.seeds) else c1;
    c2.Add(e.key, WrapInt64(Loaded(cur) + 1))
  }

  /** The cache after a run of accepted events, in the order they took the lock. */
  function CacheAfter(run: seq<Contact>): CounterCache
    decreases |run|
  {
    if run == [] then Lru.Empty(METRICS_MAX_CACHE_SIZE)
    else Bump(CacheAfter(run[..|run| - 1]), run[|run| - 1])
  }

  // ---- The declarative counterpart: counting events ----

  /** The keys of the accepted events, in order. */
  function KeySeq(run: seq<Contact>): (ks: seq<string>)
    ensures |ks| == |run|
  {
    seq(|run|, i requires 0 <= i < |run| => run[i].key)
  }

  /** The number of accepted events with this key. */
  function CountOf(run: seq<Contact>, key: string): nat {
    multiset(KeySeq(run))[key]
  }

  /** The groups contacted. */
  function Groups(run: seq<Contact>): set<Group>
    decreases |run|
  {
    if run == [] then {} else Groups(run[..|run| - 1]) + {run[|run| - 1].group}
  }

  lemma Snoc(run: seq<Contact>, e: Contact)
    ensures Groups(run + [e]) == Groups(run) + {e.group}
    ensures multiset(KeySeq(run + [e])) == multiset(KeySeq(run)) + multiset{e.key}
    ensures (run + [e])[..|run|] == run
  {
    assert (run + [e])[..|run|] == run;
    KeySeqSnoc(run, e);
  }

  lemma KeySeqSnoc(run: seq<Contact>, e: Contact)
    ensures KeySeq(run + [e]) == KeySeq(run) + [e.key]
  {
  }

  lemma {:induction false} GroupsBound(run: seq<Contact>)
    ensures |Groups(run)| <= |run|
    decreases |run|
  {
    if run != [] {
      GroupsBound(run[..|run| - 1]);
    }
  }

  lemma Prefix(run: seq<Contact>)
    requires ValidRun(run) && run != []
    ensures run == run[..|run| - 1] + [run[|run| - 1]]
    ensures ValidRun(run[..|run| - 1]) && ValidContact(run[|run| - 1])
  {
  }

  lemma PrefixGroups(run: seq<Contact>)
    requires run != []
    ensures |Groups(run[..|run| - 1])| <= |Groups(run)|
  {
    SubsetCardinality(Groups(run[..|run| - 1]), Groups(run));
  }

  /** How the keys that have been touched grow with one more event. */
  lemma TouchedKeys(run: seq<Contact>, e: Contact)
    requires ValidContact(e)
    ensures KeysOf(Groups(run + [e])) == KeysOf(Groups(run)) + GroupKeys(e.group)
    ensures if e.group in Groups(run)
            then GroupKeys(e.group) <= KeysOf(Groups(run)) && KeysOf(Groups(run + [e])) == KeysOf(Groups(run))
            else GroupKeys(e.group) !! KeysOf(Groups(run))
    ensures e.key in KeysOf(Groups(run)) <==> e.group in Groups(run)
    ensures |KeysOf(Groups(run + [e]))| == 40 * |Groups(run + [e])|
  {
    Snoc(run, e);
    KeysOfAdd(Groups(run), e.group);
    KeysOfCount(Groups(run + [e]));
    assert e.key in GroupKeys(e.group);
    if e.group in Groups(run) {
      assert Groups(run) + {e.group} == Groups(run);
    }
  }

  /** The cache holds exactly the keys in `domain`, each with its number of events. */
  ghost predicate Agrees(c: CounterCache, events: multiset<string>, domain: set<string>) {
    && c.Valid()
    && c.items.Keys == domain
    && (forall k :: k in domain ==> c.items[k] == WrapInt64(events[k]))
    && (forall k :: k in events ==> k in domain)
  }

  /** The cache agrees with counting: whole groups only, and every counter is its number of events. */
  ghost predicate Exact(c: CounterCache, run: seq<Contact>) {
    && c.capacity == METRICS_MAX_CACHE_SIZE
    && Agrees(c, multiset(KeySeq(run)), KeysOf(Groups(run)))
  }

  // ---- Exactness while nothing is evicted ----

  lemma {:induction false} StoreZerosWithinUniverse(c: CounterCache, ks: seq<string>, universe: set<string>)
    requires c.Valid() && c.items.Keys <= universe && |universe| <= c.capacity
    requires NoDup(ks) && Elements(ks) <= universe
    ensures var s := StoreZeros(c, ks);
            && s.Valid() && s.capacity == c.capacity
            && s.items.Keys == c.items.Keys + Elements(ks)
            && forall k :: k in s.items ==> s.items[k] == if k in Elements(ks) then 0 else c.items[k]
    decreases |ks|
  {
    if ks != [] {
      assert ks == [ks[0]] + ks[1..];
      assert ks[0] in Elements(ks);
      Lru.AddWithinUniverse(c, ks[0], 0, universe);
      StoreZerosWithinUniverse(c.Add(ks[0], 0), ks[1..], universe);
      assert Elements(ks) == {ks[0]} + Elements(ks[1..]);
      assert ks[0] !in Elements(ks[1..]);
    }
  }

  /** An event whose key is cached changes one counter and nothing else. */
  lemma BumpHit(c: CounterCache, e: Contact)
    requires c.Valid() && e.key in c.items
    ensures Bump(c, e).Valid() && Bump(c, e).capacity == c.capacity
    ensures Bump(c, e).items == c.items[e.key := WrapInt64(c.items[e.key] + 1)]
  {
    Lru.GetProps(c, e.key);
    Lru.AddFits(c.Get(e.key).0, e.key, WrapInt64(c.items[e.key] + 1));
  }

  /** An event whose key is not cached stores its whole group, over whatever was cached of it. */
  lemma BumpMiss(c: CounterCache, e: Contact, universe: set<string>)
    requires c.Valid() && e.key !in c.items && ValidContact(e)
    requires c.items.Keys + GroupKeys(e.group) <= universe && |universe| <= c.capacity
    ensures var c' := Bump(c, e);
            && c'.Valid() && c'.capacity == c.capacity
            && c'.items.Keys == c.items.Keys + GroupKeys(e.group)
            && forall x :: x in c'.items ==>
                 c'.items[x] == if x == e.key then 1 else if x in GroupKeys(e.group) then 0 else c.items[x]
  {
    assert e.key in Elements(e.seeds) + {e.key};
    StoreZerosWithinUniverse(c, e.seeds, universe);
    Lru.AddWithinUniverse(StoreZeros(c, e.seeds), e.key, WrapInt64(1), universe);
    forall x
      ensures x in GroupKeys(e.group) <==> x in Elements(e.seeds) || x == e.key
    {
      assert x in Elements(e.seeds) + {e.key} <==> x in Elements(e.seeds) || x == e.key;
    }
  }

  lemma HitAgrees(c: CounterCache, c': CounterCache, events: multiset<string>, domain: set<string>, k: string)
    requires Agrees(c, events, domain) && k in domain && c'.Valid()
    requires c'.items == c.items[k := WrapInt64(c.items[k] + 1)]
    ensures Agrees(c', events + multiset{k}, domain)
  {
    WrapIncrement(events[k]);
  }

  lemma MissAgrees(c: CounterCache, c': CounterCache, events: multiset<string>, domain: set<string>,
                   k: string, family: set<string>)
    requires Agrees(c, events, domain) && k in family && family !! domain && c'.Valid()
    requires c'.items.Keys == domain + family
    requires forall x :: x in c'.items ==> c'.items[x] == if x == k then 1 else if x in family then 0 else c.items[x]
    ensures Agrees(c', events + multiset{k}, domain + family)
  {
    forall x | x in family
      ensures events[x] == 0
    {
      assert x !in domain;
    }
  }

  lemma BumpMissAgrees(c: CounterCache, e: Contact, events: multiset<string>, domain: set<string>)
    requires Agrees(c, events, domain) && ValidContact(e)
    requires GroupKeys(e.group) !! domain && |domain + GroupKeys(e.group)| <= c.capacity
    ensures Agrees(Bump(c, e), events + multiset{e.key}, domain + GroupKeys(e.group))
    ensures Bump(c, e).capacity == c.capacity
  {
    var family := GroupKeys(e.group);
    assert e.key in family by {
      assert e.key in Elements(e.seeds) + {e.key};
    }
    BumpMiss(c, e, domain + family);
    MissAgrees(c, Bump(c, e), events, domain, e.key, family);
  }

  lemma BumpHitAgrees(c: CounterCache, e: Contact, events: multiset<string>, domain: set<string>)
    requires Agrees(c, events, domain) && e.key in domain
    ensures Agrees(Bump(c, e), events + multiset{e.key}, domain)
    ensures Bump(c, e).capacity == c.capacity
  {
    BumpHit(c, e);
    HitAgrees(c, Bump(c, e), events, domain, e.key);
  }

  lemma BumpExact(c: CounterCache, run: seq<Contact>, e: Contact)
    requires Exact(c, run) && ValidContact(e)
    requires |Groups(run + [e])| <= 2500
    ensures Exact(Bump(c, e), run + [e])
  {
    var domain := KeysOf(Groups(run));
    TouchedKeys(run, e);
    Snoc(run, e);
    if e.group in Groups(run) {
      BumpHitAgrees(c, e, multiset(KeySeq(run)), domain);
    } else {
      BumpMissAgrees(c, e, multiset(KeySeq(run)), domain);
    }
  }

  /**
   * In every run over at most 2500 groups nothing is evicted and no counter is lost: each
   * contacted group has all its 40 keys and no other key is cached, and every counter is
   * the number of accepted events with its key.
   */
  lemma {:induction false} RunExact(run: seq<Contact>)
    requires ValidRun(run) && |Groups(run)| <= 2500
    ensures Exact(CacheAfter(run), run)
    ensures |CacheAfter(run).order| == 40 * |Groups(run)|
    decreases |run|
  {
    if run == [] {
      assert Groups(run) == {} && KeysOf({}) == {};
    } else {
      Prefix(run);
      PrefixGroups(run);
      RunExact(run[..|run| - 1]);
      BumpExact(CacheAfter(run[..|run| - 1]), run[..|run| - 1], run[|run| - 1]);
    }
    NoDupCardinality(CacheAfter(run).order);
    KeysOfCount(Groups(run));
  }

  /** A group is cached as a whole or not at all. */
  lemma WholeGroups(run: seq<Contact>, g: Group)
    requires ValidRun(run) && |Groups(run)| <= 2500
    ensures if g in Groups(run) then GroupKeys(g) <= CacheAfter(run).items.Keys
            else GroupKeys(g) !! CacheAfter(run).items.Keys
  {
    RunExact(run);
    forall p | p in PAIRS
      ensures KeyOf(g, p) in CacheAfter(run).items.Keys <==> g in Groups(run)
    {
      KeyMembership(Groups(run), g, p);
    }
  }

  lemma AgreementDetermines(c: CounterCache, d: CounterCache, events: multiset<string>, domain: set<string>)
    requires Agrees(c, events, domain) && Agrees(d, events, domain)
    ensures c.items == d.items
  {
  }

  /** The final counters do not depend on the order of the events. */
  lemma OrderIndependent(run: seq<Contact>, other: seq<Contact>)
    requires ValidRun(run) && ValidRun(other) && |Groups(run)| <= 2500
    requires multiset(KeySeq(run)) == multiset(KeySeq(other)) && Groups(run) == Groups(other)
    ensures CacheAfter(run).items == CacheAfter(other).items
  {
    RunExact(run);
    RunExact(other);
    AgreementDetermines(CacheAfter(run), CacheAfter(other), multiset(KeySeq(run)), KeysOf(Groups(run)));
  }
}
