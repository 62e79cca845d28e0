// What happens one group past the 2500 groups the counter cache holds.
module CounterLimits {
  import opened Basics
  import opened CacheKeys
  import opened Counters
  import opened CounterStreams
  import Lru

  lemma {:induction false} StoreZerosValid(c: CounterCache, ks: seq<string>)
    requires c.Valid()
    ensures StoreZeros(c, ks).Valid() && StoreZeros(c, ks).capacity == c.capacity
    ensures StoreZeros(c, ks).items.Keys <= c.items.Keys + Elements(ks)
    decreases |ks|
  {
    if ks != [] {
      assert Elements(ks) == {ks[0]} + Elements(ks[1..]) by {
        assert ks == [ks[0]] + ks[1..];
      }
      Lru.AddProps(c, ks[0], 0);
      StoreZerosValid(c.Add(ks[0], 0), ks[1..]);
    }
  }

  lemma BumpValid(c: CounterCache, e: Contact)
    requires c.Valid()
    ensures Bump(c, e).Valid() && Bump(c, e).capacity == c.capacity
    ensures Bump(c, e).items.Keys <= c.items.Keys + (Elements(e.seeds) + {e.key})
  {
    Lru.GetProps(c, e.key);
    var (c1, cur) := c.Get(e.key);
    StoreZerosValid(c1, e.seeds);
    Lru.AddProps(if cur.None? then StoreZeros(c1, e.seeds) else c1, e.key, WrapInt64(Loaded(cur) + 1));
  }

  /** With or without evictions the cache stays within its capacity and its keys come from contacted groups. */
  lemma {:induction false} CacheAfterValid(run: seq<Contact>)
    requires ValidRun(run)
    ensures CacheAfter(run).Valid() && CacheAfter(run).capacity == METRICS_MAX_CACHE_SIZE
    ensures CacheAfter(run).items.Keys <= KeysOf(Groups(run))
    decreases |run|
  {
    if run != [] {
      var init, e := run[..|run| - 1], run[|run| - 1];
      Prefix(run);
      CacheAfterValid(init);
      BumpValid(CacheAfter(init), e);
      TouchedKeys(init, e);
    }
  }

  /** The bound is tight: whatever 2501 or more groups a run contacts, some counter has been evicted. */
  lemma EvictionIsForced(run: seq<Contact>)
    requires ValidRun(run) && |Groups(run)| > 2500
    ensures exists k :: k in KeysOf(Groups(run)) && k !in CacheAfter(run).items
  {
    CacheAfterValid(run);
    KeysOfCount(Groups(run));
    NoDupCardinality(CacheAfter(run).order);
    if KeysOf(Groups(run)) <= CacheAfter(run).items.Keys {
      SubsetCardinality(KeysOf(Groups(run)), CacheAfter(run).items.Keys);
    }
  }

  // ---- A counter that starts over ----

  lemma {:induction false} StoreZerosOutlives(c: CounterCache, ks: seq<string>, k: string, touched: set<string>)
    requires c.Valid() && Lru.Outlived(c, k, touched) && k !in Elements(ks)
    ensures Lru.Outlived(StoreZeros(c, ks), k, touched + Elements(ks))
    decreases |ks|
  {
    if ks == [] {
      assert touched + Elements(ks) == touched;
    } else {
      assert Elements(ks) == {ks[0]} + Elements(ks[1..]) by {
        assert ks == [ks[0]] + ks[1..];
      }
      Lru.AddProps(c, ks[0], 0);
      Lru.AddOutlives(c, k, touched, ks[0], 0);
      StoreZerosOutlives(c.Add(ks[0], 0), ks[1..], k, touched + {ks[0]});
      assert touched + {ks[0]} + Elements(ks[1..]) == touched + Elements(ks);
    }
  }

  /** A first contact makes the keys of its group younger than every other key. */
  lemma FirstContactOutlives(c: CounterCache, e: Contact, k: string, touched: set<string>)
    requires c.Valid() && e.key !in c.items && Lru.Outlived(c, k, touched)
    requires k !in Elements(e.seeds) + {e.key}
    ensures Lru.Outlived(Bump(c, e), k, touched + (Elements(e.seeds) + {e.key}))
  {
    StoreZerosOutlives(c, e.seeds, k, touched);
    StoreZerosValid(c, e.seeds);
    Lru.AddOutlives(StoreZeros(c, e.seeds), k, touched + Elements(e.seeds), e.key, WrapInt64(1));
    assert touched + Elements(e.seeds) + {e.key} == touched + (Elements(e.seeds) + {e.key});
  }

  /** `rest` contacts groups for the first time only, each once. */
  ghost predicate FreshContacts(first: seq<Contact>, rest: seq<Contact>) {
    Groups(first) !! Groups(rest) && |Groups(rest)| == |rest|
  }

  lemma {:induction false} GroupsAppend(first: seq<Contact>, rest: seq<Contact>)
    ensures Groups(first + rest) == Groups(first) + Groups(rest)
    decreases |rest|
  {
    if rest == [] {
      assert first + rest == first;
    } else {
      var init, e := rest[..|rest| - 1], rest[|rest| - 1];
      assert first + rest == first + init + [e];
      GroupsAppend(first, init);
      Snoc(first + init, e);
    }
  }

  lemma FreshPrefix(first: seq<Contact>, init: seq<Contact>, e: Contact)
    requires FreshContacts(first, init + [e])
    ensures FreshContacts(first, init) && e.group !in Groups(first + init)
    ensures Groups(init + [e]) == Groups(init) + {e.group}
    ensures Groups(first) <= Groups(first + init)
  {
    Snoc(init, e);
    GroupsBound(init);
    GroupsAppend(first, init);
  }

  lemma {:induction false} FreshContactsOutlive(first: seq<Contact>, rest: seq<Contact>, k: string)
    requires ValidRun(first + rest) && FreshContacts(first, rest) && k in KeysOf(Groups(first))
    ensures Lru.Outlived(CacheAfter(first + rest), k, KeysOf(Groups(rest)))
    decreases |rest|
  {
    if rest == [] {
      assert KeysOf({}) == {};
    } else {
      var init, e := rest[..|rest| - 1], rest[|rest| - 1];
      var before := first + init;
      assert rest == init + [e] && first + rest == before + [e];
      Prefix(first + rest);
      assert (first + rest)[..|before|] == before;
      FreshPrefix(first, init, e);
      FreshContactsOutlive(first, init, k);
      KeysOfAdd(Groups(init), e.group);
      FreshStep(first, before, e, k, KeysOf(Groups(init)));
    }
  }

  lemma FreshStep(first: seq<Contact>, before: seq<Contact>, e: Contact, k: string, touched: set<string>)
    requires ValidRun(before) && ValidContact(e) && Groups(first) <= Groups(before)
    requires e.group !in Groups(before) && k in KeysOf(Groups(first))
    requires Lru.Outlived(CacheAfter(before), k, touched)
    ensures Lru.Outlived(Bump(CacheAfter(before), e), k, touched + GroupKeys(e.group))
  {
    CacheAfterValid(before);
    KeysOfAdd(Groups(first), e.group);
    TouchedKeys(before, e);
    FirstContactOutlives(CacheAfter(before), e, k, touched);
  }

  /** Two events of one counter, then 2500 other groups once each, then that counter again. */
  function ResetRun(e: Contact, others: seq<Contact>): seq<Contact> {
    [e, e] + others + [e]
  }

  lemma OneGroup(e: Contact)
    ensures Groups([e]) == {e.group} && Groups([e, e]) == {e.group}
  {
    assert [e][..0] == [] && [e, e][..1] == [e];
  }

  lemma ForgottenAfter(e: Contact, others: seq<Contact>, before: seq<Contact>)
    requires ValidContact(e) && ValidRun(others) && |others| == 2500 && FreshContacts([e], others)
    requires before == [e, e] + others
    ensures e.key !in CacheAfter(before).items
  {
    TwiceContacted(e, others, before);
    FreshContactsOutlive([e, e], others, e.key);
    CacheAfterValid(before);
    OutlivedByGroups(CacheAfter(before), e.key, Groups(others));
  }

  lemma ContactedKey(run: seq<Contact>, e: Contact)
    requires ValidContact(e) && e.group in Groups(run)
    ensures e.key in KeysOf(Groups(run))
  {
    TouchedKeys(run, e);
  }

  lemma TwiceContacted(e: Contact, others: seq<Contact>, before: seq<Contact>)
    requires ValidContact(e) && ValidRun(others) && FreshContacts([e], others)
    requires before == [e, e] + others
    ensures ValidRun(before) && FreshContacts([e, e], others) && e.key in KeysOf(Groups([e, e]))
  {
    OneGroup(e);
    ContactedKey([e, e], e);
  }

  lemma OutlivedByGroups(c: CounterCache, k: string, groups: set<Group>)
    requires c.Valid() && c.capacity == METRICS_MAX_CACHE_SIZE && |groups| == 2500
    requires Lru.Outlived(c, k, KeysOf(groups))
    ensures k !in c.items
  {
    KeysOfCount(groups);
    Lru.OutlivedIsEvicted(c, k, KeysOf(groups));
  }

  lemma ResetRunGroups(e: Contact, others: seq<Contact>)
    requires |others| == 2500 && FreshContacts([e], others)
    ensures |Groups(ResetRun(e, others))| == 2501
  {
    OneGroup(e);
    GroupsAppend([e, e], others);
    Snoc([e, e] + others, e);
    assert Groups(ResetRun(e, others)) == Groups(others) + {e.group};
  }

  /**
   * One group too many loses a counter for good: over 2501 groups, whichever they are, the counter
   * of `e` reports 2 after its second event and 1 after its third.
   */
  lemma CounterResets(e: Contact, others: seq<Contact>)
    requires ValidContact(e) && ValidRun(others) && |others| == 2500 && FreshContacts([e], others)
    ensures |Groups(ResetRun(e, others))| == 2501
    ensures Reports(CacheAfter(ResetRun(e, others)[..1]), e) == [(e.key, 2)]
    ensures var last := Reports(CacheAfter(ResetRun(e, others)[..2502]), e);
            |last| == 40 && last[39] == (e.key, 1)
  {
    var run, before := ResetRun(e, others), [e, e] + others;
    ResetRunGroups(e, others);
    assert run[..1] == [e];
    OneGroup(e);
    RunExact([e]);
    SecondReport(CacheAfter([e]), e);
    assert run[..2502] == before;
    ForgottenAfter(e, others, before);
    FirstReports(CacheAfter(before), e);
  }

  lemma SecondReport(c: CounterCache, e: Contact)
    requires ValidContact(e) && Exact(c, [e])
    ensures Reports(c, e) == [(e.key, 2)]
  {
    OneGroup(e);
    TouchedKeys([e], e);
    CountsOne(e);
    HitReports(c, e, multiset{e.key}, KeysOf(Groups([e])));
  }

  lemma CountsOne(e: Contact)
    ensures multiset(KeySeq([e])) == multiset{e.key}
  {
    assert KeySeq([e]) == [e.key];
  }
}
