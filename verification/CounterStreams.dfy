// What the counters report over a whole run.
module CounterStreams {
  import opened Basics
  import opened CacheKeys
  import opened Counters
  import Lru

  /** A reported value under its counter key. */
  type Report = (string, int)

  function ZeroReports(ks: seq<string>): (zs: seq<Report>)
    ensures |zs| == |ks|
    ensures forall i :: 0 <= i < |ks| ==> zs[i] == (ks[i], 0)
  {
    seq(|ks|, i requires 0 <= i < |ks| => (ks[i], 0))
  }

  /** What one accepted event reports: the seeds of a first contact, then the incremented counter. */
  function Reports(c: CounterCache, e: Contact): seq<Report> {
    var cur := c.Get(e.key).1;
    (if cur.None? then ZeroReports(e.seeds) else []) + [(e.key, WrapInt64(Loaded(cur) + 1))]
  }

  /** Everything a run reports, in order. */
  function ReportStream(run: seq<Contact>): seq<Report>
    decreases |run|
  {
    if run == [] then []
    else ReportStream(run[..|run| - 1]) + Reports(CacheAfter(run[..|run| - 1]), run[|run| - 1])
  }

  function ReportKeys(reports: seq<Report>): (ks: seq<string>)
    ensures |ks| == |reports|
    ensures forall i :: 0 <= i < |reports| ==> ks[i] == reports[i].0
  {
    seq(|reports|, i requires 0 <= i < |reports| => reports[i].0)
  }

  lemma FirstReports(c: CounterCache, e: Contact)
    requires e.key !in c.items && NoDup(e.seeds) && e.key !in Elements(e.seeds)
    ensures ReportKeys(Reports(c, e)) == e.seeds + [e.key] && NoDup(e.seeds + [e.key])
    ensures Elements(e.seeds + [e.key]) == Elements(e.seeds) + {e.key}
    ensures forall i :: 0 <= i < |e.seeds| ==> Reports(c, e)[i].1 == 0
    ensures Reports(c, e)[|e.seeds|] == (e.key, 1)
  {
  }

  /**
   * The first accepted event of a group reports its 40 counters once each, 39 zeros and a one,
   * whatever the iteration order.
   */
  lemma FirstContactReports(c: CounterCache, run: seq<Contact>, e: Contact)
    requires Exact(c, run) && ValidContact(e) && e.group !in Groups(run)
    ensures var reports := Reports(c, e);
            && |reports| == 40
            && NoDup(ReportKeys(reports)) && Elements(ReportKeys(reports)) == GroupKeys(e.group)
            && reports[39] == (e.key, 1)
            && forall i :: 0 <= i < 39 ==> reports[i].1 == 0
  {
    TouchedKeys(run, e);
    FirstReports(c, e);
  }

  /** Every later one reports its own counter alone, one up. */
  lemma LaterReports(c: CounterCache, run: seq<Contact>, e: Contact)
    requires Exact(c, run) && ValidContact(e) && e.group in Groups(run)
    ensures Reports(c, e) == [(e.key, WrapInt64(CountOf(run, e.key) + 1))]
  {
    TouchedKeys(run, e);
    HitReports(c, e, multiset(KeySeq(run)), KeysOf(Groups(run)));
  }

  lemma HitReports(c: CounterCache, e: Contact, events: multiset<string>, domain: set<string>)
    requires Agrees(c, events, domain) && e.key in domain
    ensures Reports(c, e) == [(e.key, WrapInt64(events[e.key] + 1))]
  {
    WrapIncrement(events[e.key]);
  }

  /** The values reported under one key, in order. */
  function ValuesOf(reports: seq<Report>, k: string): seq<int> {
    if reports == [] then []
    else
      var n := |reports| - 1;
      ValuesOf(reports[..n], k) + if reports[n].0 == k then [reports[n].1] else []
  }

  lemma {:induction false} ValuesOfAppend(a: seq<Report>, b: seq<Report>, k: string)
    ensures ValuesOf(a + b, k) == ValuesOf(a, k) + ValuesOf(b, k)
    decreases |b|
  {
    if b == [] {
      assert a + b == a;
    } else {
      var n := |b| - 1;
      assert (a + b)[..|a| + n] == a + b[..n];
      ValuesOfAppend(a, b[..n], k);
    }
  }

  lemma {:induction false} ValuesOfZeros(ks: seq<string>, k: string)
    requires NoDup(ks)
    ensures ValuesOf(ZeroReports(ks), k) == if k in ks then [0] else []
  {
    if ks != [] {
      var n := |ks| - 1;
      assert ZeroReports(ks)[..n] == ZeroReports(ks[..n]);
      ValuesOfZeros(ks[..n], k);
      assert ks == ks[..n] + [ks[n]];
    }
  }

  lemma ReportsValues(c: CounterCache, e: Contact, x: string)
    requires NoDup(e.seeds) && e.key !in Elements(e.seeds)
    ensures ValuesOf(Reports(c, e), x) ==
              if x == e.key then [WrapInt64((if e.key in c.items then c.items[e.key] else 0) + 1)]
              else if e.key !in c.items && x in Elements(e.seeds) then [0]
              else []
  {
    var last: Report := (e.key, WrapInt64((if e.key in c.items then c.items[e.key] else 0) + 1));
    assert [last][..0] == [];
    assert ValuesOf([last], x) == if x == e.key then [last.1] else [];
    if e.key in c.items {
      assert Reports(c, e) == [last];
    } else {
      ValuesOfZeros(e.seeds, x);
      ValuesOfAppend(ZeroReports(e.seeds), [last], x);
    }
  }

  /** A cumulative series: consecutive integers from a seed 0 or a first 1 up to the number of events. */
  ghost predicate CountsUp(values: seq<int>, total: nat) {
    && values != []
    && (values[0] == 0 || values[0] == 1)
    && (forall i :: 0 <= i < |values| ==> values[i] == values[0] + i)
    && values[|values| - 1] == total
  }

  /** Series `x` either has not been reported and has no event, or has counted up to its number of events. */
  ghost predicate SeriesAgrees(values: seq<int>, x: string, events: multiset<string>, domain: set<string>) {
    if x in domain then CountsUp(values, events[x]) else values == []
  }

  lemma SeriesStep(c: CounterCache, values: seq<int>, x: string, events: multiset<string>, domain: set<string>,
                   e: Contact, family: set<string>)
    requires Agrees(c, events, domain) && NoDup(e.seeds) && e.key !in Elements(e.seeds)
    requires family == Elements(e.seeds) + {e.key}
    requires if e.key in domain then family <= domain else family !! domain
    requires SeriesAgrees(values, x, events, domain)
    requires FitsInt64(events[e.key] + 1)
    ensures SeriesAgrees(values + ValuesOf(Reports(c, e), x), x, events + multiset{e.key}, domain + family)
  {
    ReportsValues(c, e, x);
    if x !in domain {
      assert events[x] == 0;
    }
    if e.key !in domain {
      assert events[e.key] == 0;
    }
  }

  lemma {:induction false} CountBound(keys: seq<string>, k: string)
    ensures multiset(keys)[k] <= |keys|
  {
    if keys != [] {
      var n := |keys| - 1;
      CountBound(keys[..n], k);
      assert keys == keys[..n] + [keys[n]];
    }
  }

  lemma CountFits(run: seq<Contact>, k: string)
    requires |run| < TWO_TO_63
    ensures CountOf(run, k) <= |run| && WrapInt64(CountOf(run, k)) == CountOf(run, k)
  {
    CountBound(KeySeq(run), k);
  }

  /**
   * In every run over at most 2500 groups (and fewer than 2^63 events) the values reported under
   * a key, by job and run sums together, count up by exactly one from a seed 0 or a first 1, and
   * the last one is the number of accepted events with that key.
   */
  lemma {:induction false} ReportedValues(run: seq<Contact>, x: string)
    requires ValidRun(run) && |Groups(run)| <= 2500 && |run| < TWO_TO_63
    ensures SeriesAgrees(ValuesOf(ReportStream(run), x), x, multiset(KeySeq(run)), KeysOf(Groups(run)))
    decreases |run|
  {
    if run == [] {
      assert Groups(run) == {};
    } else {
      var init, e := run[..|run| - 1], run[|run| - 1];
      Prefix(run);
      PrefixGroups(run);
      ReportedValues(init, x);
      RunExact(init);
      CountFits(init, e.key);
      ValuesOfAppend(ReportStream(init), Reports(CacheAfter(init), e), x);
      TouchedKeys(init, e);
      Snoc(init, e);
      SeriesStep(CacheAfter(init), ValuesOf(ReportStream(init), x), x, multiset(KeySeq(init)),
                 KeysOf(Groups(init)), e, GroupKeys(e.group));
    }
  }
}
