// When a counter goes on and when it starts over. With at most 2500 groups it always goes on.
// Past that it starts over for two reasons: it is evicted once as many other counters as the
// cache holds have been used since its last event, and, while still cached, it is overwritten
// with 0 when an event of its group finds its own counter evicted and seeds the whole group.
module CounterLifetimes {
  import opened Basics
  import opened CacheKeys
  import opened Counters
  import opened CounterStreams
  import opened CounterLimits
  import Lru

  /** The counters an event uses: its own, and when that is not cached all its group's. */
  function Used(c: CounterCache, e: Contact): set<string> {
    if e.key in c.items then {e.key} else Elements(e.seeds) + {e.key}
  }

  /** The counters used by `more` after `run`. */
  function UsedSince(run: seq<Contact>, more: seq<Contact>): set<string>
    decreases |more|
  {
    if more == [] then {}
    else
      var init := more[..|more| - 1];
      UsedSince(run, init) + Used(CacheAfter(run + init), more[|more| - 1])
  }

  lemma {:induction false} TrailSeeds(c: CounterCache, ks: seq<string>, k: string, used: set<string>)
    requires Lru.Trails(c, k, used) && k !in Elements(ks)
    ensures Lru.Trails(StoreZeros(c, ks), k, used + Elements(ks)) && StoreZeros(c, ks).capacity == c.capacity
    ensures k in StoreZeros(c, ks).items ==> k in c.items && StoreZeros(c, ks).items[k] == c.items[k]
    decreases |ks|
  {
    if ks == [] {
      assert used + Elements(ks) == used;
    } else {
      assert Elements(ks) == {ks[0]} + Elements(ks[1..]) by {
        assert ks == [ks[0]] + ks[1..];
      }
      Lru.TrailGrows(c, k, used, ks[0], 0);
      OtherValueKept(c, k, ks[0], 0);
      TrailSeeds(c.Add(ks[0], 0), ks[1..], k, used + {ks[0]});
      assert used + {ks[0]} + Elements(ks[1..]) == used + Elements(ks);
    }
  }

  lemma OtherValueKept(c: CounterCache, k: string, t: string, v: int)
    requires c.Valid() && k != t
    ensures k in c.Add(t, v).items ==> k in c.items && c.Add(t, v).items[k] == c.items[k]
  {
    if t in c.items || |c.order| < c.capacity {
      Lru.AddFits(c, t, v);
    } else {
      Lru.AddEvicts(c, t, v);
    }
  }

  lemma TrailBump(c: CounterCache, e: Contact, k: string, used: set<string>)
    requires Lru.Trails(c, k, used) && k !in Used(c, e)
    ensures Lru.Trails(Bump(c, e), k, used + Used(c, e)) && Bump(c, e).capacity == c.capacity
    ensures k in Bump(c, e).items ==> k in c.items && Bump(c, e).items[k] == c.items[k]
  {
    var (c1, cur) := c.Get(e.key);
    var value := WrapInt64(Loaded(cur) + 1);
    Lru.GetProps(c, e.key);
    Lru.TrailLookedUp(c, k, used, e.key);
    if e.key in c.items {
      Lru.TrailGrows(c1, k, used + {e.key}, e.key, value);
      OtherValueKept(c1, k, e.key, value);
      assert used + {e.key} + {e.key} == used + {e.key};
    } else {
      TrailSeeds(c, e.seeds, k, used);
      Lru.TrailGrows(StoreZeros(c, e.seeds), k, used + Elements(e.seeds), e.key, value);
      OtherValueKept(StoreZeros(c, e.seeds), k, e.key, value);
      assert used + Elements(e.seeds) + {e.key} == used + (Elements(e.seeds) + {e.key});
    }
  }

  lemma {:induction false} TrailAfter(run: seq<Contact>, more: seq<Contact>, k: string, used: set<string>)
    requires Lru.Trails(CacheAfter(run), k, used) && k !in UsedSince(run, more)
    ensures Lru.Trails(CacheAfter(run + more), k, used + UsedSince(run, more))
    ensures CacheAfter(run + more).capacity == CacheAfter(run).capacity
    ensures k in CacheAfter(run + more).items ==>
              k in CacheAfter(run).items && CacheAfter(run + more).items[k] == CacheAfter(run).items[k]
    decreases |more|
  {
    if more == [] {
      assert run + more == run && used + {} == used;
    } else {
      var init, e := more[..|more| - 1], more[|more| - 1];
      assert run + more == run + init + [e];
      TrailAfter(run, init, k, used);
      Snoc(run + init, e);
      TrailBump(CacheAfter(run + init), e, k, used + UsedSince(run, init));
      assert used + UsedSince(run, init) + Used(CacheAfter(run + init), e) == used + UsedSince(run, more);
    }
  }

  // ---- Overwritten counters ----

  /** The counter is 0, if it is cached at all. */
  ghost predicate ZeroOrGone(c: CounterCache, k: string) {
    k in c.items ==> c.items[k] == 0
  }

  lemma {:induction false} SeedsZero(c: CounterCache, ks: seq<string>, k: string)
    requires c.Valid() && (ZeroOrGone(c, k) || k in ks)
    ensures StoreZeros(c, ks).Valid() && ZeroOrGone(StoreZeros(c, ks), k)
    decreases |ks|
  {
    if ks != [] {
      Lru.AddProps(c, ks[0], 0);
      if ks[0] != k {
        OtherValueKept(c, k, ks[0], 0);
        assert k in ks ==> k in ks[1..];
      }
      SeedsZero(c.Add(ks[0], 0), ks[1..], k);
    }
  }

  /** A counter that is 0, or is set to 0 by this event of another one, is 0 or gone after it. */
  lemma ZeroStays(c: CounterCache, e: Contact, k: string)
    requires c.Valid() && e.key != k && (ZeroOrGone(c, k) || k in Used(c, e))
    ensures ZeroOrGone(Bump(c, e), k)
  {
    var (c1, cur) := c.Get(e.key);
    Lru.GetProps(c, e.key);
    var value := WrapInt64(Loaded(cur) + 1);
    if cur.None? {
      SeedsZero(c, e.seeds, k);
      OtherValueKept(StoreZeros(c, e.seeds), k, e.key, value);
    } else {
      OtherValueKept(c1, k, e.key, value);
    }
  }

  lemma PrefixValid(run: seq<Contact>, more: seq<Contact>)
    requires ValidRun(run + more)
    ensures ValidRun(run)
  {
    assert forall i :: 0 <= i < |run| ==> run[i] == (run + more)[i];
  }

  lemma UsedNext(run: seq<Contact>, more: seq<Contact>, e: Contact)
    ensures UsedSince(run, more + [e]) == UsedSince(run, more) + Used(CacheAfter(run + more), e)
    ensures CacheAfter(run + (more + [e])) == Bump(CacheAfter(run + more), e)
  {
    assert (more + [e])[..|more|] == more;
    assert run + (more + [e]) == run + more + [e];
    Snoc(run + more, e);
  }

  lemma OverwrittenNext(run: seq<Contact>, init: seq<Contact>, e: Contact, k: string)
    requires ValidRun(run + init) && e.key != k && k in UsedSince(run, init + [e])
    requires k in UsedSince(run, init) ==> ZeroOrGone(CacheAfter(run + init), k)
    ensures ZeroOrGone(CacheAfter(run + (init + [e])), k)
  {
    CacheAfterValid(run + init);
    UsedNext(run, init, e);
    ZeroStays(CacheAfter(run + init), e, k);
  }

  /** Once it has been overwritten a counter is 0 or gone until its own next event. */
  lemma {:induction false} OverwrittenStaysZero(run: seq<Contact>, more: seq<Contact>, k: string)
    requires ValidRun(run + more) && k in UsedSince(run, more)
    requires forall i :: 0 <= i < |more| ==> more[i].key != k
    ensures ZeroOrGone(CacheAfter(run + more), k)
    decreases |more|
  {
    var init, e := more[..|more| - 1], more[|more| - 1];
    assert more == init + [e];
    assert run + more == run + init + [e];
    PrefixValid(run + init, [e]);
    if k in UsedSince(run, init) {
      OverwrittenStaysZero(run, init, k);
    }
    OverwrittenNext(run, init, e, k);
  }

  lemma StoredIsNewest(c: CounterCache, k: string, n: int)
    requires c.Valid()
    ensures Lru.Trails(c.Add(k, n), k, {}) && c.Add(k, n).capacity == c.capacity && k in c.Add(k, n).items
  {
    Lru.AddProps(c, k, n);
    Lru.TrailStarts(c.Add(k, n), k);
  }

  /** Right after its event a counter is the newest. */
  lemma BumpedIsNewest(c: CounterCache, e: Contact)
    requires c.Valid()
    ensures Lru.Trails(Bump(c, e), e.key, {}) && Bump(c, e).capacity == c.capacity && e.key in Bump(c, e).items
  {
    var (c1, cur) := c.Get(e.key);
    Lru.GetProps(c, e.key);
    StoreZerosValid(c1, e.seeds);
    StoredIsNewest(if cur.None? then StoreZeros(c1, e.seeds) else c1, e.key, WrapInt64(Loaded(cur) + 1));
  }

  lemma EventIsNewest(run: seq<Contact>, e: Contact)
    requires ValidRun(run) && run != [] && e == run[|run| - 1]
    ensures Lru.Trails(CacheAfter(run), e.key, {})
    ensures CacheAfter(run).capacity == METRICS_MAX_CACHE_SIZE && e.key in CacheAfter(run).items
  {
    Prefix(run);
    CacheAfterValid(run[..|run| - 1]);
    BumpedIsNewest(CacheAfter(run[..|run| - 1]), e);
  }

  /** What an event reports for its own counter, in its last point. */
  function OwnReport(c: CounterCache, e: Contact): (value: int)
    ensures Reports(c, e) != [] && Reports(c, e)[|Reports(c, e)| - 1] == (e.key, value)
    ensures value == if e.key in c.items then WrapInt64(c.items[e.key] + 1) else 1
  {
    var reports := Reports(c, e);
    reports[|reports| - 1].1
  }

  /**
   * When a counter goes on and when it starts over: after an event of its own, and then any others of other
   * counters, its next event reports one more than the last if and only if none of them has overwritten it and
   * fewer than 100000 other counters have been used in between; otherwise it reports 1.
   */
  lemma CounterGoesOnIff(run: seq<Contact>, e: Contact, more: seq<Contact>, next: Contact)
    requires run != [] && e == run[|run| - 1] && ValidRun(run + more) && next.key == e.key
    requires forall i :: 0 <= i < |more| ==> more[i].key != e.key
    ensures var before, c, used := CacheAfter(run), CacheAfter(run + more), UsedSince(run, more);
            && e.key in before.items
            && OwnReport(c, next)
               == if e.key !in used && |used| < 100000 then WrapInt64(before.items[e.key] + 1) else 1
  {
    PrefixValid(run, more);
    EventIsNewest(run, e);
    if e.key in UsedSince(run, more) {
      OverwrittenStaysZero(run, more, e.key);
      StartsOver(CacheAfter(run + more), e.key, next);
    } else {
      TrailAfter(run, more, e.key, {});
      GoesOn(CacheAfter(run), CacheAfter(run + more), {} + UsedSince(run, more), e.key, next);
      assert {} + UsedSince(run, more) == UsedSince(run, more);
    }
  }

  lemma StartsOver(c: CounterCache, key: string, next: Contact)
    requires ZeroOrGone(c, key) && next.key == key
    ensures OwnReport(c, next) == 1
  {
  }

  lemma GoesOn(before: CounterCache, c: CounterCache, used: set<string>, key: string, next: Contact)
    requires Lru.Trails(c, key, used) && c.capacity == METRICS_MAX_CACHE_SIZE
    requires key in before.items && (key in c.items ==> c.items[key] == before.items[key]) && next.key == key
    ensures key in c.items <==> |used| < METRICS_MAX_CACHE_SIZE
    ensures key in c.items ==> c.items[key] == before.items[key]
    ensures OwnReport(c, next) == if |used| < METRICS_MAX_CACHE_SIZE then WrapInt64(before.items[key] + 1) else 1
  {
    Lru.CachedIff(c, key, used);
  }

  // ---- A live counter is overwritten ----

  lemma FreshIsMiss(run: seq<Contact>, e: Contact)
    requires ValidRun(run) && ValidContact(e) && e.group !in Groups(run)
    ensures e.key !in CacheAfter(run).items && Used(CacheAfter(run), e) == GroupKeys(e.group)
  {
    CacheAfterValid(run);
    TouchedKeys(run, e);
  }

  lemma {:induction false} FreshUse(first: seq<Contact>, rest: seq<Contact>)
    requires ValidRun(first + rest) && FreshContacts(first, rest)
    ensures UsedSince(first, rest) == KeysOf(Groups(rest))
    decreases |rest|
  {
    if rest == [] {
      assert KeysOf({}) == {};
    } else {
      var init, e := rest[..|rest| - 1], rest[|rest| - 1];
      assert rest == init + [e] && first + rest == first + init + [e];
      Prefix(first + rest);
      FreshPrefix(first, init, e);
      FreshUse(first, init);
      KeysOfAdd(Groups(init), e.group);
      FreshIsMiss(first + init, e);
    }
  }

  lemma TrailOfCached(c: CounterCache, k: string) returns (used: set<string>)
    requires c.Valid() && k in c.items
    ensures Lru.Trails(c, k, used)
  {
    used := Elements(Lru.After(c.order, k));
    assert k in Elements(c.order);
    Lru.NotAfterItself(c.order, k);
  }

  lemma OneGroupKeys(g: Group)
    ensures KeysOf({g}) == GroupKeys(g) && |GroupKeys(g)| == 40
  {
    KeysOfAdd({}, g);
    assert KeysOf({}) == {} && {} + {g} == {g};
    KeysOfCount({g});
  }

  lemma KeyInGroup(x: Contact)
    requires ValidContact(x)
    ensures x.key in GroupKeys(x.group)
  {
    assert x.key in Elements(x.seeds) + {x.key};
  }

  lemma GroupsApart(g: Group, h: Group)
    requires g != h
    ensures GroupKeys(g) !! GroupKeys(h)
  {
    KeysOfAdd({g}, h);
    OneGroupKeys(g);
  }

  lemma GroupApart(groups: set<Group>, g: Group)
    requires g !in groups
    ensures GroupKeys(g) !! KeysOf(groups)
  {
    KeysOfAdd(groups, g);
  }

  /** The scene: an event, 2499 other groups, the same counter again, and one more group. */
  ghost predicate Scene(e: Contact, others: seq<Contact>, before: seq<Contact>, f: Contact, sibling: Contact) {
    && before == [e] + others && ValidRun(before)
    && |others| == 2499 && FreshContacts([e], others)
    && ValidContact(f) && f.group !in Groups(before)
    && ValidContact(sibling) && sibling.group == e.group && sibling.key != e.key
  }

  lemma SceneGroups(e: Contact, others: seq<Contact>, before: seq<Contact>, f: Contact, sibling: Contact)
    requires Scene(e, others, before, f, sibling)
    ensures ValidContact(e) && e.group !in Groups(others) && f.group != e.group && f.group !in Groups(others)
    ensures Groups(before) == {e.group} + Groups(others) && |Groups(before)| == 2500
    ensures |Groups(others)| == 2499
  {
    assert before[0] == e;
    OneGroup(e);
    GroupsAppend([e], others);
  }

  lemma {:induction false} CountElsewhere(run: seq<Contact>, key: string, g: Group)
    requires ValidRun(run) && key in GroupKeys(g) && g !in Groups(run)
    ensures multiset(KeySeq(run))[key] == 0
    decreases |run|
  {
    if run == [] {
      assert KeySeq(run) == [];
    } else {
      var init, x := run[..|run| - 1], run[|run| - 1];
      Prefix(run);
      CountElsewhere(init, key, g);
      KeyInGroup(x);
      GroupsApart(g, x.group);
      Snoc(init, x);
    }
  }

  lemma OthersValid(e: Contact, others: seq<Contact>)
    requires ValidRun([e] + others)
    ensures ValidRun(others)
  {
    assert forall i :: 0 <= i < |others| ==> others[i] == ([e] + others)[i + 1];
  }

  lemma CountsBefore(e: Contact, others: seq<Contact>, before: seq<Contact>)
    requires before == [e] + others && ValidRun(before) && ValidContact(e) && e.group !in Groups(others)
    ensures multiset(KeySeq(before + [e]))[e.key] == 2
  {
    OthersValid(e, others);
    KeyInGroup(e);
    CountElsewhere(others, e.key, e.group);
    CountsTwice(e, others, before);
  }

  lemma CountsTwice(e: Contact, others: seq<Contact>, before: seq<Contact>)
    requires before == [e] + others && multiset(KeySeq(others))[e.key] == 0
    ensures multiset(KeySeq(before + [e]))[e.key] == 2
  {
    assert KeySeq(before + [e]) == [e.key] + KeySeq(others) + [e.key];
  }

  lemma ExactValue(c: CounterCache, run: seq<Contact>, k: string, n: nat)
    requires Exact(c, run) && k in KeysOf(Groups(run)) && multiset(KeySeq(run))[k] == n && FitsInt64(n)
    ensures k in c.items && c.items[k] == n
  {
  }

  lemma CachedUse(c: CounterCache, run: seq<Contact>, e: Contact)
    requires Exact(c, run) && e.key in KeysOf(Groups(run))
    ensures Used(c, e) == {e.key}
  {
  }

  lemma SameGroups(run: seq<Contact>, e: Contact)
    requires ValidRun(run) && ValidContact(e) && e.group in Groups(run)
    ensures ValidRun(run + [e]) && Groups(run + [e]) == Groups(run)
  {
    Snoc(run, e);
    assert Groups(run) + {e.group} == Groups(run);
  }

  /** The counter has counted both of its events. */
  lemma CountedToTwo(e: Contact, others: seq<Contact>, before: seq<Contact>, f: Contact, sibling: Contact)
    requires Scene(e, others, before, f, sibling)
    ensures ValidRun(before + [e]) && Groups(before + [e]) == Groups(before)
    ensures Used(CacheAfter(before), e) == {e.key}
    ensures e.key in CacheAfter(before + [e]).items && CacheAfter(before + [e]).items[e.key] == 2
  {
    SceneGroups(e, others, before, f, sibling);
    SameGroups(before, e);
    ContactedKey(before, e);
    RunExact(before);
    CachedUse(CacheAfter(before), before, e);
    RunExact(before + [e]);
    CountsBefore(e, others, before);
    ExactValue(CacheAfter(before + [e]), before + [e], e.key, 2);
  }

  lemma UsedByOne(run: seq<Contact>, e: Contact)
    ensures UsedSince(run, [e]) == Used(CacheAfter(run), e)
  {
    assert [e][..0] == [] && run + [] == run;
  }

  /** One more group does not push out the counter of `e`. */
  lemma StillThere(run: seq<Contact>, e: Contact, f: Contact)
    requires run != [] && ValidRun(run) && e == run[|run| - 1] && ValidContact(f)
    requires f.group !in Groups(run) && f.group != e.group && ValidContact(e)
    ensures |UsedSince(run, [f])| == 40
    ensures e.key in CacheAfter(run).items && e.key in CacheAfter(run + [f]).items
    ensures CacheAfter(run + [f]).items[e.key] == CacheAfter(run).items[e.key]
  {
    FreshIsMiss(run, f);
    UsedByOne(run, f);
    OneGroupKeys(f.group);
    KeyInGroup(e);
    GroupsApart(e.group, f.group);
    EventIsNewest(run, e);
    TrailAfter(run, [f], e.key, {});
    assert {} + UsedSince(run, [f]) == UsedSince(run, [f]);
    GoesOn(CacheAfter(run), CacheAfter(run + [f]), UsedSince(run, [f]), e.key, e);
  }

  /** What has been used since the first event. */
  lemma UsedInScene(e: Contact, others: seq<Contact>, before: seq<Contact>, f: Contact, sibling: Contact)
    returns (more: seq<Contact>)
    requires Scene(e, others, before, f, sibling)
    ensures [e] + more == before + [e] + [f]
    ensures UsedSince([e], more) == KeysOf(Groups(others)) + {e.key} + GroupKeys(f.group)
  {
    CountedToTwo(e, others, before, f, sibling);
    FreshUse([e], others);
    FreshIsMiss(before + [e], f);
    var again := UsedMore([e], others, e, before, KeysOf(Groups(others)));
    more := UsedMore([e], again, f, before + [e], KeysOf(Groups(others)) + {e.key});
  }

  lemma UsedMore(run: seq<Contact>, more: seq<Contact>, e: Contact, whole: seq<Contact>, used: set<string>)
    returns (next: seq<Contact>)
    requires run + more == whole && UsedSince(run, more) == used
    ensures run + next == whole + [e] && UsedSince(run, next) == used + Used(CacheAfter(whole), e)
  {
    UsedNext(run, more, e);
    next := more + [e];
    assert run + next == whole + [e];
  }

  lemma FirstCaches(e: Contact, sibling: Contact)
    requires ValidContact(e) && ValidContact(sibling) && sibling.group == e.group
    ensures CacheAfter([e]).Valid() && CacheAfter([e]).capacity == METRICS_MAX_CACHE_SIZE
    ensures sibling.key in CacheAfter([e]).items
  {
    OneGroup(e);
    RunExact([e]);
    TouchedKeys([e], sibling);
  }

  lemma ManyUsed(groups: set<Group>, g: Group, key: string, used: set<string>)
    requires |groups| == 2499 && g !in groups && KeysOf(groups) + {key} + GroupKeys(g) <= used
    ensures |used| >= METRICS_MAX_CACHE_SIZE
  {
    KeysOfAdd(groups, g);
    KeysOfCount(groups + {g});
    SubsetCardinality(KeysOf(groups + {g}), used);
  }

  lemma SiblingUnused(e: Contact, others: seq<Contact>, before: seq<Contact>, f: Contact, sibling: Contact)
    requires Scene(e, others, before, f, sibling)
    ensures sibling.key !in KeysOf(Groups(others)) + {e.key} + GroupKeys(f.group)
  {
    SceneGroups(e, others, before, f, sibling);
    KeyInGroup(sibling);
    GroupApart(Groups(others), e.group);
    GroupsApart(e.group, f.group);
  }

  /** Any cached counter is gone once as many others as the cache holds have been used. */
  lemma EvictedBy(run: seq<Contact>, more: seq<Contact>, k: string)
    requires CacheAfter(run).Valid() && CacheAfter(run).capacity == METRICS_MAX_CACHE_SIZE
    requires k in CacheAfter(run).items && k !in UsedSince(run, more)
    requires |UsedSince(run, more)| >= METRICS_MAX_CACHE_SIZE
    ensures k !in CacheAfter(run + more).items
  {
    var used := TrailOfCached(CacheAfter(run), k);
    TrailAfter(run, more, k, used);
    SubsetCardinality(UsedSince(run, more), used + UsedSince(run, more));
    Lru.CachedIff(CacheAfter(run + more), k, used + UsedSince(run, more));
  }

  /** By the time of the sibling's event its counter is gone. */
  lemma SiblingEvicted(e: Contact, others: seq<Contact>, before: seq<Contact>, f: Contact, sibling: Contact)
    requires Scene(e, others, before, f, sibling)
    ensures sibling.key !in CacheAfter(before + [e] + [f]).items
  {
    var more := UsedInScene(e, others, before, f, sibling);
    SceneGroups(e, others, before, f, sibling);
    SiblingUnused(e, others, before, f, sibling);
    FirstCaches(e, sibling);
    ManyUsed(Groups(others), f.group, e.key, UsedSince([e], more));
    EvictedBy([e], more, sibling.key);
  }

  /** Seeding stores a zero under every seed, and all of them stay. */
  lemma {:induction false} SeedCached(c: CounterCache, ks: seq<string>, k: string) returns (used: set<string>)
    requires c.Valid() && NoDup(ks) && k in ks
    ensures Lru.Trails(StoreZeros(c, ks), k, used) && used <= Elements(ks) - {k}
    ensures StoreZeros(c, ks).capacity == c.capacity && ZeroOrGone(StoreZeros(c, ks), k)
    decreases |ks|
  {
    SeedsZero(c, ks, k);
    Lru.AddProps(c, ks[0], 0);
    assert ks == [ks[0]] + ks[1..];
    if ks[0] == k {
      Lru.TrailStarts(c.Add(k, 0), k);
      TrailSeeds(c.Add(k, 0), ks[1..], k, {});
      used := {} + Elements(ks[1..]);
    } else {
      used := SeedCached(c.Add(ks[0], 0), ks[1..], k);
    }
  }

  /** An event whose own counter is not cached overwrites every other counter of its group with 0. */
  lemma MissOverwrites(c: CounterCache, e: Contact, k: string)
    requires c.Valid() && c.capacity == METRICS_MAX_CACHE_SIZE && ValidContact(e) && e.key !in c.items
    requires k in GroupKeys(e.group) && k != e.key
    ensures k in Bump(c, e).items && Bump(c, e).items[k] == 0
  {
    var used := SeedCached(c, e.seeds, k);
    Lru.TrailGrows(StoreZeros(c, e.seeds), k, used, e.key, WrapInt64(1));
    NoDupCardinality(e.seeds);
    SubsetCardinality(used + {e.key}, Elements(e.seeds) + {e.key});
    Lru.CachedIff(Bump(c, e), k, used + {e.key});
    ZeroStays(c, e, k);
  }

  /**
   * Past 2500 groups seeding does overwrite a live counter: in this run over 2501 groups the counter of `e` stands
   * at 2, is cached and has been followed by the 40 counters of one group only, when the event of a sibling whose
   * counter has been evicted sets it to 0; the next event of `e` reports 1.
   */
  lemma SeedingOverwrites(e: Contact, others: seq<Contact>, before: seq<Contact>, f: Contact, sibling: Contact)
    requires Scene(e, others, before, f, sibling)
    ensures var run := before + [e] + [f];
            && |Groups(run)| == 2501
            && |UsedSince(before + [e], [f])| == 40
            && e.key in CacheAfter(run).items && CacheAfter(run).items[e.key] == 2
            && e.key in CacheAfter(run + [sibling]).items && CacheAfter(run + [sibling]).items[e.key] == 0
            && OwnReport(CacheAfter(run + [sibling]), e) == 1
  {
    var twice := before + [e];
    SceneGroups(e, others, before, f, sibling);
    CountedToTwo(e, others, before, f, sibling);
    StillThere(twice, e, f);
    SiblingEvicted(e, others, before, f, sibling);
    RunOfScene(twice, f);
    KeyInGroup(e);
    Overwritten(twice + [f], sibling, e);
  }

  lemma RunOfScene(twice: seq<Contact>, f: Contact)
    requires ValidRun(twice) && |Groups(twice)| == 2500 && ValidContact(f) && f.group !in Groups(twice)
    ensures ValidRun(twice + [f]) && |Groups(twice + [f])| == 2501
  {
    Snoc(twice, f);
  }

  lemma Overwritten(run: seq<Contact>, sibling: Contact, e: Contact)
    requires ValidRun(run) && ValidContact(sibling) && sibling.key !in CacheAfter(run).items
    requires e.key in GroupKeys(sibling.group) && e.key != sibling.key
    ensures e.key in CacheAfter(run + [sibling]).items && CacheAfter(run + [sibling]).items[e.key] == 0
    ensures OwnReport(CacheAfter(run + [sibling]), e) == 1
  {
    CacheAfterValid(run);
    Snoc(run, sibling);
    MissOverwrites(CacheAfter(run), sibling, e.key);
    StartsOver(CacheAfter(run + [sibling]), e.key, e);
  }
}
