// Accepted events with their attributes: which counter an event increments, what is
// reported for it, and when a series has a counter to itself.
module CountEvents {
  import opened Basics
  import opened Telemetry
  import opened CacheKeys
  import opened Counters
  import opened CounterStreams

  /** The counter an accepted event increments, and the sum that reports it. */
  datatype Target =
    Target(kind: Kind, repo: string, labels: string, status: Status, conclusion: Conclusion, isMain: bool)
  {
    function Group(): Group {
      GroupOf(repo, labels, isMain)
    }

    function Pair(): Pair {
      (status, conclusion)
    }

    function Key(): string {
      CacheKey(repo, labels, status, conclusion, isMain)
    }

    function Sibling(p: Pair): Target {
      this.(status := p.0, conclusion := p.1)
    }
  }

  /** An accepted event, with the order in which the tables' pairs come up should seeding be needed. */
  datatype Hit = Hit(target: Target, order: seq<Pair>)

  ghost predicate IsIterationOrder(order: seq<Pair>) {
    NoDup(order) && Elements(order) == PAIRS
  }

  ghost predicate ValidHit(h: Hit) {
    h.target.Pair() in PAIRS && IsIterationOrder(h.order)
  }

  ghost predicate ValidHits(hits: seq<Hit>) {
    forall i :: 0 <= i < |hits| ==> ValidHit(hits[i])
  }

  /** The pairs seeded by a first contact: all but the one that is hit. */
  function Siblings(h: Hit): seq<Pair> {
    Without(h.order, h.target.Pair())
  }

  function KeysAlong(g: Group, ps: seq<Pair>): (ks: seq<string>)
    ensures |ks| == |ps|
    ensures forall i :: 0 <= i < |ps| ==> ks[i] == KeyOf(g, ps[i])
  {
    seq(|ps|, i requires 0 <= i < |ps| => KeyOf(g, ps[i]))
  }

  function ContactOf(h: Hit): Contact {
    Contact(h.target.Group(), h.target.Key(), KeysAlong(h.target.Group(), Siblings(h)))
  }

  function Contacts(hits: seq<Hit>): seq<Contact>
    decreases |hits|
  {
    if hits == [] then [] else Contacts(hits[..|hits| - 1]) + [ContactOf(hits[|hits| - 1])]
  }

  lemma TargetKey(t: Target)
    ensures t.Key() == KeyOf(t.Group(), t.Pair())
  {
    CacheKeyIsKeyOf(t.repo, t.labels, t.status, t.conclusion, t.isMain);
  }

  lemma SiblingPairs(h: Hit)
    requires ValidHit(h)
    ensures NoDup(Siblings(h)) && |Siblings(h)| == 39
    ensures Elements(Siblings(h)) == PAIRS - {h.target.Pair()}
  {
    assert h.target.Pair() in Elements(h.order);
    WithoutProps(h.order, h.target.Pair());
    NoDupCardinality(h.order);
    PairCount();
    assert Elements(Siblings(h)) == Elements(h.order) - {h.target.Pair()};
  }

  lemma KeysAlongDistinct(g: Group, ps: seq<Pair>)
    requires NoDup(ps)
    ensures NoDup(KeysAlong(g, ps))
  {
    var ks := KeysAlong(g, ps);
    forall i, j | 0 <= i < j < |ks|
      ensures ks[i] != ks[j]
    {
      if ks[i] == ks[j] {
        KeyOfInjective(g, ps[i], g, ps[j]);
      }
    }
  }

  lemma KeysAlongElements(g: Group, ps: seq<Pair>, p: Pair)
    requires p !in ps && Elements(ps) + {p} == PAIRS
    ensures KeyOf(g, p) !in Elements(KeysAlong(g, ps))
    ensures Elements(KeysAlong(g, ps)) + {KeyOf(g, p)} == GroupKeys(g)
  {
    var ks := KeysAlong(g, ps);
    forall i | 0 <= i < |ks|
      ensures ks[i] != KeyOf(g, p) && ks[i] in GroupKeys(g)
    {
      assert ps[i] in Elements(ps);
      if ks[i] == KeyOf(g, p) {
        KeyOfInjective(g, ps[i], g, p);
      }
    }
    forall k | k in GroupKeys(g)
      ensures k in Elements(ks) + {KeyOf(g, p)}
    {
      var q :| q in PAIRS && k == KeyOf(g, q);
      if q != p {
        assert q in Elements(ps);
        var i :| 0 <= i < |ps| && ps[i] == q;
        assert ks[i] == k;
      }
    }
    assert p in PAIRS;
  }

  /** Whatever the iteration order, an accepted event touches the 40 keys of its group, each once. */
  lemma ContactOfValid(h: Hit)
    requires ValidHit(h)
    ensures ValidContact(ContactOf(h))
  {
    SiblingPairs(h);
    KeysAlongDistinct(h.target.Group(), Siblings(h));
    assert h.target.Pair() !in Elements(Siblings(h));
    KeysAlongElements(h.target.Group(), Siblings(h), h.target.Pair());
    TargetKey(h.target);
  }

  lemma {:induction false} ContactsProps(hits: seq<Hit>)
    requires ValidHits(hits)
    ensures ValidRun(Contacts(hits)) && |Contacts(hits)| == |hits|
    decreases |hits|
  {
    if hits != [] {
      ContactsProps(hits[..|hits| - 1]);
      ContactOfValid(hits[|hits| - 1]);
    }
  }

  // ---- Reported samples ----

  /** A value reported for a counter, with the counter's attributes. */
  datatype Sample = Sample(target: Target, value: int)

  function Zeros(t: Target, ps: seq<Pair>): (zs: seq<Sample>)
    ensures |zs| == |ps|
    ensures forall i :: 0 <= i < |ps| ==> zs[i] == Sample(t.Sibling(ps[i]), 0)
  {
    seq(|ps|, i requires 0 <= i < |ps| => Sample(t.Sibling(ps[i]), 0))
  }

  function Samples(c: CounterCache, h: Hit): seq<Sample> {
    var cur := c.Get(h.target.Key()).1;
    (if cur.None? then Zeros(h.target, Siblings(h)) else [])
    + [Sample(h.target, WrapInt64(Loaded(cur) + 1))]
  }

  function SampleStream(hits: seq<Hit>): seq<Sample>
    decreases |hits|
  {
    if hits == [] then []
    else
      var init := hits[..|hits| - 1];
      SampleStream(init) + Samples(CacheAfter(Contacts(init)), hits[|hits| - 1])
  }

  function ReportFor(s: Sample): Report {
    (s.target.Key(), s.value)
  }

  function Keyed(samples: seq<Sample>): (rs: seq<Report>)
    ensures |rs| == |samples|
    ensures forall i :: 0 <= i < |samples| ==> rs[i] == ReportFor(samples[i])
  {
    seq(|samples|, i requires 0 <= i < |samples| => ReportFor(samples[i]))
  }

  lemma KeyedAppend(a: seq<Sample>, b: seq<Sample>)
    ensures Keyed(a + b) == Keyed(a) + Keyed(b)
  {
    var ab, k := a + b, Keyed(a + b);
    forall i | 0 <= i < |ab|
      ensures k[i] == (Keyed(a) + Keyed(b))[i]
    {
      assert k[i] == ReportFor(ab[i]);
    }
  }

  lemma KeyedZeros(h: Hit)
    ensures Keyed(Zeros(h.target, Siblings(h))) == ZeroReports(ContactOf(h).seeds)
  {
    var ps, zs, ks := Siblings(h), Zeros(h.target, Siblings(h)), ContactOf(h).seeds;
    forall i | 0 <= i < |ps|
      ensures Keyed(zs)[i] == ZeroReports(ks)[i]
    {
      assert Keyed(zs)[i] == ReportFor(zs[i]);
      TargetKey(h.target.Sibling(ps[i]));
    }
  }

  lemma SamplesAreReports(c: CounterCache, h: Hit)
    ensures Keyed(Samples(c, h)) == Reports(c, ContactOf(h))
  {
    var last := Sample(h.target, WrapInt64(Loaded(c.Get(h.target.Key()).1) + 1));
    assert Keyed([last]) == [ReportFor(last)];
    if h.target.Key() in c.items {
      assert Samples(c, h) == [last];
    } else {
      KeyedZeros(h);
      KeyedAppend(Zeros(h.target, Siblings(h)), [last]);
    }
  }

  /** The reported samples, stripped to their keys, are the reports of the counter algorithm. */
  lemma {:induction false} StreamsAgree(hits: seq<Hit>)
    ensures Keyed(SampleStream(hits)) == ReportStream(Contacts(hits))
    ensures |Contacts(hits)| == |hits|
    decreases |hits|
  {
    if hits != [] {
      var init, h := hits[..|hits| - 1], hits[|hits| - 1];
      StreamsAgree(init);
      SamplesAreReports(CacheAfter(Contacts(init)), h);
      KeyedAppend(SampleStream(init), Samples(CacheAfter(Contacts(init)), h));
      assert Contacts(hits)[..|init|] == Contacts(init);
    }
  }

  // ---- Job and run counters share one cache ----

  /** The number of accepted events of one kind with this key: what a series of that kind should report. */
  function KindCount(hits: seq<Hit>, kind: Kind, k: string): nat
    decreases |hits|
  {
    if hits == [] then 0
    else
      var t := hits[|hits| - 1].target;
      KindCount(hits[..|hits| - 1], kind, k) + if t.kind == kind && t.Key() == k then 1 else 0
  }

  function Other(kind: Kind): Kind {
    if kind.Job? then Run else Job
  }

  lemma {:induction false} KindsAddUp(hits: seq<Hit>, kind: Kind, k: string)
    ensures CountOf(Contacts(hits), k) == KindCount(hits, kind, k) + KindCount(hits, Other(kind), k)
    decreases |hits|
  {
    if hits != [] {
      KindsAddUp(hits[..|hits| - 1], kind, k);
      KeySeqSnoc(Contacts(hits[..|hits| - 1]), ContactOf(hits[|hits| - 1]));
    }
  }

  /**
   * A cached counter is exact for the job series (for the run series) with its key if and
   * only if no run event (no job event) was counted under that key.
   */
  lemma ExactPerKind(hits: seq<Hit>, kind: Kind, k: string)
    requires ValidHits(hits) && |Groups(Contacts(hits))| <= 2500 && |hits| < TWO_TO_63
    requires k in CacheAfter(Contacts(hits)).items
    ensures CacheAfter(Contacts(hits)).items[k] == KindCount(hits, kind, k) <==> KindCount(hits, Other(kind), k) == 0
  {
    ContactsProps(hits);
    RunExact(Contacts(hits));
    CountFits(Contacts(hits), k);
    KindsAddUp(hits, kind, k);
  }

  // ---- Per-series exactness ----

  /**
   * A target whose key names its series: the repository is colon-free, and "default" is
   * the label string of runs and of no job.
   */
  predicate Plain(t: Target) {
    && t.Pair() in PAIRS
    && ':' !in t.repo
    && (t.kind.Run? <==> t.labels == "default")
  }

  ghost predicate PlainHits(hits: seq<Hit>) {
    forall i :: 0 <= i < |hits| ==> Plain(hits[i].target)
  }

  lemma PlainKeysNameTargets(t: Target, u: Target)
    requires Plain(t) && Plain(u) && t.Key() == u.Key()
    ensures t == u
  {
    CacheKeyInjective(t.repo, t.labels, t.status, t.conclusion, t.isMain,
                      u.repo, u.labels, u.status, u.conclusion, u.isMain);
  }

  /** The values reported for one series. */
  function SeriesValues(samples: seq<Sample>, t: Target): seq<int> {
    if samples == [] then []
    else
      var n := |samples| - 1;
      SeriesValues(samples[..n], t) + if samples[n].target == t then [samples[n].value] else []
  }

  ghost predicate PlainSamples(samples: seq<Sample>) {
    forall i :: 0 <= i < |samples| ==> Plain(samples[i].target)
  }

  lemma SiblingListed(h: Hit, i: nat)
    requires ValidHit(h) && i < |Siblings(h)|
    ensures Siblings(h)[i] in PAIRS
  {
    SiblingPairs(h);
    assert Siblings(h)[i] in Elements(Siblings(h));
  }

  lemma SamplesPlain(c: CounterCache, h: Hit)
    requires ValidHit(h) && Plain(h.target)
    ensures PlainSamples(Samples(c, h))
  {
    forall i | 0 <= i < |Siblings(h)|
      ensures Plain(h.target.Sibling(Siblings(h)[i]))
    {
      SiblingListed(h, i);
    }
  }

  lemma {:induction false} StreamIsPlain(hits: seq<Hit>)
    requires ValidHits(hits) && PlainHits(hits)
    ensures PlainSamples(SampleStream(hits))
    decreases |hits|
  {
    if hits != [] {
      var init, h := hits[..|hits| - 1], hits[|hits| - 1];
      StreamIsPlain(init);
      SamplesPlain(CacheAfter(Contacts(init)), h);
    }
  }

  lemma ReportNamesTarget(s: Sample, t: Target)
    requires Plain(t) && Plain(s.target)
    ensures ReportFor(s).0 == t.Key() <==> s.target == t
  {
    if s.target.Key() == t.Key() {
      PlainKeysNameTargets(s.target, t);
    }
  }

  lemma {:induction false} SeriesIsKey(samples: seq<Sample>, reports: seq<Report>, t: Target, k: string)
    requires |reports| == |samples|
    requires forall i :: 0 <= i < |samples| ==> reports[i].1 == samples[i].value
    requires forall i :: 0 <= i < |samples| ==> (reports[i].0 == k <==> samples[i].target == t)
    ensures SeriesValues(samples, t) == ValuesOf(reports, k)
    decreases |samples|
  {
    if samples != [] {
      var n := |samples| - 1;
      SeriesIsKey(samples[..n], reports[..n], t, k);
    }
  }

  /** The values of a plain series are the values reported under its key. */
  lemma SeriesValuesAreKeyValues(hits: seq<Hit>, t: Target)
    requires ValidHits(hits) && PlainHits(hits) && Plain(t)
    ensures SeriesValues(SampleStream(hits), t) == ValuesOf(ReportStream(Contacts(hits)), t.Key())
  {
    var samples := SampleStream(hits);
    StreamIsPlain(hits);
    StreamsAgree(hits);
    forall i | 0 <= i < |samples|
      ensures Keyed(samples)[i].0 == t.Key() <==> samples[i].target == t
    {
      ReportNamesTarget(samples[i], t);
    }
    SeriesIsKey(samples, Keyed(samples), t, t.Key());
  }

  lemma {:induction false} OtherKindSilent(hits: seq<Hit>, t: Target)
    requires PlainHits(hits) && Plain(t)
    ensures KindCount(hits, Other(t.kind), t.Key()) == 0
    decreases |hits|
  {
    if hits != [] {
      var u := hits[|hits| - 1].target;
      OtherKindSilent(hits[..|hits| - 1], t);
      if u.Key() == t.Key() {
        PlainKeysNameTargets(u, t);
      }
    }
  }

  /**
   * Per series: in every run over at most 2500 groups with colon-free repositories and no job
   * labelled "default", a series is silent until its group is contacted and from then on counts
   * up by exactly one, from a seed 0 or a first 1 to the number of its own accepted events.
   */
  lemma SeriesCountsUp(hits: seq<Hit>, t: Target)
    requires ValidHits(hits) && |Groups(Contacts(hits))| <= 2500 && |hits| < TWO_TO_63
    requires PlainHits(hits) && Plain(t)
    ensures if t.Group() in Groups(Contacts(hits))
            then CountsUp(SeriesValues(SampleStream(hits), t), KindCount(hits, t.kind, t.Key()))
            else SeriesValues(SampleStream(hits), t) == []
  {
    ContactsProps(hits);
    SeriesValuesAreKeyValues(hits, t);
    ReportedValues(Contacts(hits), t.Key());
    TargetKey(t);
    KeyMembership(Groups(Contacts(hits)), t.Group(), t.Pair());
    KindsAddUp(hits, t.kind, t.Key());
    OtherKindSilent(hits, t);
  }
}
