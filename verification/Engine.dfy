// The metrics handler as a state machine: one step per critical section.
module Engine {
  import opened Basics
  import opened Telemetry
  import opened CacheKeys
  import opened Counters
  import opened CounterStreams
  import opened CountEvents
  import opened Histograms
  import opened Events
  import Lru

  /** The readings of the clock a counting handler takes: for points, for the observation, its report, and the sweep. */
  datatype Clocks = Clocks(now: int, seenAt: int, reportedAt: int, sweptAt: int)

  /** One call of a handler method, with everything it decides before touching shared state. */
  datatype Call =
    | BuildInfoCall(now: int, version: string)
    | BareCall  // an event without repository or payload, or with an empty repository name
    | CountCall(target: Option<Target>, order: seq<Pair>, timing: Option<Timing>, clocks: Clocks)

  ghost predicate ValidCall(call: Call) {
    call.CountCall? && call.target.Some? ==> ValidHit(Hit(call.target.value, call.order))
  }

  ghost predicate ValidCalls(calls: seq<Call>) {
    forall i :: 0 <= i < |calls| ==> ValidCall(calls[i])
  }

  /** What a call hands to its caller. Asking an empty emission for its first resource panics. */
  datatype Outcome = Emitted(resources: seq<seq<Metric>>) | IndexPanic

  datatype HandlerState = HandlerState(config: Config, counters: CounterCache, hists: HistCache, buffers: Buffers)

  function NewHandler(config: Config): HandlerState {
    HandlerState(config, Lru.Empty(METRICS_MAX_CACHE_SIZE), Lru.Empty(HISTOGRAM_CACHE_SIZE), NO_POINTS)
  }

  function PointFor(config: Config, ts: int, s: Sample): Point {
    var t := s.target;
    Point(config.startTime, ts, s.value,
          CountAttributes(t.kind, t.repo, t.labels, t.status.Name(), t.conclusion.Name(), t.isMain))
  }

  function RecordSample(b: Buffers, config: Config, ts: int, s: Sample): Buffers {
    var t := s.target;
    b.RecordCount(config, ts, s.value, t.kind, t.repo, t.labels, t.status, t.conclusion, t.isMain)
  }

  function RecordSamples(b: Buffers, config: Config, ts: int, samples: seq<Sample>): Buffers
    decreases |samples|
  {
    if samples == [] then b
    else RecordSamples(RecordSample(b, config, ts, samples[0]), config, ts, samples[1..])
  }

  function DurationPoint(series: DurationSeries, h: Hist, ts: int): Metric {
    DurationHistogram(HistogramPoint(ts, h.count, h.sum, DURATION_BOUNDS, h.buckets, series))
  }

  /** Load, seed, store, record. */
  function CountEvent(s: HandlerState, target: Option<Target>, order: seq<Pair>, ts: int): HandlerState
  {
    match target
    case None => s
    case Some(t) =>
      var hit := Hit(t, order);
      s.(counters := Bump(s.counters, ContactOf(hit)),
         buffers := RecordSamples(s.buffers, s.config, ts, Samples(s.counters, hit)))
  }

  /** The pairs an event seeds: none if its counter was cached. */
  function SeededPairs(s: HandlerState, t: Target, order: seq<Pair>): seq<Pair> {
    if t.Key() in s.counters.items then [] else Without(order, t.Pair())
  }

  lemma SamplesAre(s: HandlerState, t: Target, order: seq<Pair>, last: Sample)
    requires last == Sample(t, WrapInt64(Loaded(s.counters.Get(t.Key()).1) + 1))
    ensures Samples(s.counters, Hit(t, order)) == Zeros(t, SeededPairs(s, t, order)) + [last]
  {
    if t.Key() in s.counters.items {
      assert Zeros(t, []) == [];
    }
  }

  lemma BumpIs(s: HandlerState, t: Target, order: seq<Pair>, value: int)
    requires value == WrapInt64(Loaded(s.counters.Get(t.Key()).1) + 1)
    ensures Bump(s.counters, ContactOf(Hit(t, order)))
            == StoreZeros(s.counters.Get(t.Key()).0, KeysAlong(t.Group(), SeededPairs(s, t, order))).Add(t.Key(), value)
  {
    if t.Key() in s.counters.items {
      assert KeysAlong(t.Group(), []) == [];
    }
  }

  /** Observe the duration, if there is one, and append its point to the emitted metrics. */
  function ObserveTiming(s: HandlerState, timing: Option<Timing>, clocks: Clocks): (HandlerState, seq<Metric>)
  {
    match timing
    case None => (s, [])
    case Some(t) =>
      var k := DurationKey(t.series);
      var (hists, h) := ObserveKey(s.hists, k, t.seconds, clocks.seenAt);
      (s.(hists := hists), [DurationPoint(t.series, h, clocks.reportedAt)])
  }

  function SweepHandler(s: HandlerState, now: int): HandlerState
  {
    s.(hists := Sweep(s.hists, now))
  }

  /** One critical section, from lock to unlock. */
  function Step(s: HandlerState, call: Call): (HandlerState, Outcome)
  {
    match call
    case BuildInfoCall(now, version) =>
      var recorded := s.buffers.RecordBuildInfo(s.config, now, 1, version);
      (s.(buffers := NO_POINTS), Emitted(recorded.Emission()))
    case BareCall =>
      (s.(buffers := NO_POINTS), Emitted(s.buffers.Emission()))
    case CountCall(target, order, timing, clocks) =>
      var counted := CountEvent(s, target, order, clocks.now);
      var emission := counted.buffers.Emission();
      var drained := counted.(buffers := NO_POINTS);
      if emission == [] then (drained, IndexPanic)
      else
        var (observed, durations) := ObserveTiming(drained, timing, clocks);
        (SweepHandler(observed, clocks.sweptAt), Emitted(emission[0 := emission[0] + durations]))
  }

  /** The handler after a run of critical sections. */
  function HandlerAfter(config: Config, calls: seq<Call>): HandlerState
    decreases |calls|
  {
    if calls == [] then NewHandler(config)
    else Step(HandlerAfter(config, calls[..|calls| - 1]), calls[|calls| - 1]).0
  }

  /** What the last of a run of critical sections returns. */
  function LastOutcome(config: Config, calls: seq<Call>): Outcome
    requires calls != []
  {
    Step(HandlerAfter(config, calls[..|calls| - 1]), calls[|calls| - 1]).1
  }

  lemma HandlerSnoc(config: Config, calls: seq<Call>, call: Call)
    ensures (HandlerAfter(config, calls + [call]), LastOutcome(config, calls + [call]))
            == Step(HandlerAfter(config, calls), call)
  {
    assert (calls + [call])[..|calls|] == calls;
  }

  // ---- The run as events of the two caches ----

  function Hits(calls: seq<Call>): seq<Hit>
    decreases |calls|
  {
    if calls == [] then []
    else Hits(calls[..|calls| - 1]) + HitsOf(calls[|calls| - 1])
  }

  function HitsOf(call: Call): seq<Hit> {
    if call.CountCall? && call.target.Some? then [Hit(call.target.value, call.order)] else []
  }

  /** The call records a point, so its emission is not empty. */
  predicate Reports?(config: Config, call: Call) {
    call.CountCall? && call.target.Some? && config.Enabled(call.target.value.kind)
  }

  function OpsOf(config: Config, call: Call): seq<Op> {
    if !Reports?(config, call) then []
    else
      (match call.timing
       case None => []
       case Some(t) => [Observed(DurationKey(t.series), t.seconds, call.clocks.seenAt)])
      + [Swept(call.clocks.sweptAt)]
  }

  function Ops(config: Config, calls: seq<Call>): seq<Op>
    decreases |calls|
  {
    if calls == [] then []
    else Ops(config, calls[..|calls| - 1]) + OpsOf(config, calls[|calls| - 1])
  }

  function Points(config: Config, ts: int, samples: seq<Sample>): (ps: seq<Point>)
    ensures |ps| == |samples|
    ensures forall i :: 0 <= i < |samples| ==> ps[i] == PointFor(config, ts, samples[i])
  {
    seq(|samples|, i requires 0 <= i < |samples| => PointFor(config, ts, samples[i]))
  }

  ghost predicate OfKind(samples: seq<Sample>, kind: Kind) {
    forall i :: 0 <= i < |samples| ==> samples[i].target.kind == kind
  }

  /** The buffers with points of one kind appended, if that kind is enabled. */
  function AppendPoints(b: Buffers, config: Config, kind: Kind, ps: seq<Point>): Buffers {
    if !config.Enabled(kind) then b
    else if kind.Job? then b.(jobs := b.jobs + ps)
    else b.(runs := b.runs + ps)
  }

  lemma AppendTwice(b: Buffers, config: Config, kind: Kind, ps: seq<Point>, qs: seq<Point>)
    ensures AppendPoints(AppendPoints(b, config, kind, ps), config, kind, qs) == AppendPoints(b, config, kind, ps + qs)
  {
    assert b.jobs + ps + qs == b.jobs + (ps + qs);
    assert b.runs + ps + qs == b.runs + (ps + qs);
  }

  lemma AppendNone(b: Buffers, config: Config, kind: Kind)
    ensures AppendPoints(b, config, kind, []) == b
  {
    assert b.jobs + [] == b.jobs && b.runs + [] == b.runs;
  }

  lemma {:induction false} RecordSamplesEffect(b: Buffers, config: Config, ts: int, samples: seq<Sample>, kind: Kind)
    requires OfKind(samples, kind)
    ensures RecordSamples(b, config, ts, samples) == AppendPoints(b, config, kind, Points(config, ts, samples))
    decreases |samples|
  {
    if samples == [] {
      AppendNone(b, config, kind);
      assert Points(config, ts, samples) == [];
    } else {
      var first, rest := [PointFor(config, ts, samples[0])], Points(config, ts, samples[1..]);
      var b' := RecordSample(b, config, ts, samples[0]);
      assert b' == AppendPoints(b, config, kind, first);
      RecordSamplesEffect(b', config, ts, samples[1..], kind);
      AppendTwice(b, config, kind, first, rest);
      assert Points(config, ts, samples) == first + rest;
    }
  }

  lemma SamplesOfKind(c: CounterCache, h: Hit)
    ensures Samples(c, h) != [] && OfKind(Samples(c, h), h.target.kind)
  {
  }

  lemma EmissionOfPoints(config: Config, kind: Kind, ps: seq<Point>)
    requires ps != []
    ensures AppendPoints(NO_POINTS, config, kind, ps).Emission()
            == if config.Enabled(kind) then [[CountSum(kind, ps)]] else []
  {
    assert [] + ps == ps;
    var only := [CountSum(kind, ps)];
    assert [] + only + [] == only && [] + [] + only == only;
  }

  /** What recording an event's samples leaves for the emission. */
  lemma CountEmission(s: HandlerState, target: Target, order: seq<Pair>, ts: int)
    requires s.buffers == NO_POINTS
    ensures CountEvent(s, Some(target), order, ts).buffers.Emission() ==
              if s.config.Enabled(target.kind)
              then [[CountSum(target.kind, Points(s.config, ts, Samples(s.counters, Hit(target, order))))]]
              else []
  {
    var samples := Samples(s.counters, Hit(target, order));
    SamplesOfKind(s.counters, Hit(target, order));
    RecordSamplesEffect(s.buffers, s.config, ts, samples, target.kind);
    EmissionOfPoints(s.config, target.kind, Points(s.config, ts, samples));
  }

  /**
   * What one critical section does on a handler with empty buffers: the counter cache takes the event, the
   * histogram cache takes the observation and the sweep, the buffers are empty again. It panics exactly when
   * it is a counting call that records no point: its action is not a known status, or its sum is disabled.
   */
  lemma StepEffect(s: HandlerState, call: Call)
    requires s.buffers == NO_POINTS
    ensures var (s', out) := Step(s, call);
            && s'.config == s.config && s'.buffers == NO_POINTS
            && s'.counters == (if HitsOf(call) == [] then s.counters else Bump(s.counters, ContactOf(HitsOf(call)[0])))
            && s'.hists == (if !Reports?(s.config, call) then s.hists
                            else if call.timing.None? then Sweep(s.hists, call.clocks.sweptAt)
                            else Sweep(ObserveKey(s.hists, DurationKey(call.timing.value.series),
                                                  call.timing.value.seconds, call.clocks.seenAt).0,
                                       call.clocks.sweptAt))
            && (out == IndexPanic <==> call.CountCall? && !Reports?(s.config, call))
  {
    if call.CountCall? && call.target.Some? {
      CountEmission(s, call.target.value, call.order, call.clocks.now);
    }
  }

  /** Between critical sections the builder holds no points: nothing is left over for the next emission. */
  lemma {:induction false} BuffersDrained(config: Config, calls: seq<Call>)
    ensures HandlerAfter(config, calls).buffers == NO_POINTS && HandlerAfter(config, calls).config == config
    decreases |calls|
  {
    if calls != [] {
      BuffersDrained(config, calls[..|calls| - 1]);
      StepEffect(HandlerAfter(config, calls[..|calls| - 1]), calls[|calls| - 1]);
    }
  }

  lemma {:induction false} HitsValid(calls: seq<Call>)
    requires ValidCalls(calls)
    ensures ValidHits(Hits(calls)) && |Hits(calls)| <= |calls|
    decreases |calls|
  {
    if calls != [] {
      HitsValid(calls[..|calls| - 1]);
    }
  }

  /** The counter cache of the handler is the counter algorithm run on the accepted events. */
  lemma {:induction false} CountersAfter(config: Config, calls: seq<Call>)
    ensures HandlerAfter(config, calls).counters == CacheAfter(Contacts(Hits(calls)))
    decreases |calls|
  {
    if calls != [] {
      var init, last := calls[..|calls| - 1], calls[|calls| - 1];
      CountersAfter(config, init);
      BuffersDrained(config, init);
      StepEffect(HandlerAfter(config, init), last);
      if HitsOf(last) != [] {
        ContactsSnoc(Hits(init), HitsOf(last)[0]);
      } else {
        assert Hits(calls) == Hits(init);
      }
    }
  }

  lemma ContactsSnoc(hits: seq<Hit>, h: Hit)
    ensures Contacts(hits + [h]) == Contacts(hits) + [ContactOf(h)]
    ensures CacheAfter(Contacts(hits + [h])) == Bump(CacheAfter(Contacts(hits)), ContactOf(h))
  {
    assert (hits + [h])[..|hits|] == hits;
    var run := Contacts(hits);
    assert (run + [ContactOf(h)])[..|run|] == run;
  }

  lemma HistSnoc(ops: seq<Op>, op: Op)
    ensures HistAfter(ops + [op]) == Apply(HistAfter(ops), op)
  {
    assert (ops + [op])[..|ops|] == ops;
  }

  /** The histogram cache of the handler is the histogram algorithm run on the observations and sweeps. */
  lemma {:induction false} HistsAfter(config: Config, calls: seq<Call>)
    ensures HandlerAfter(config, calls).hists == HistAfter(Ops(config, calls))
    decreases |calls|
  {
    if calls != [] {
      var init, last := calls[..|calls| - 1], calls[|calls| - 1];
      var ops := Ops(config, init);
      HistsAfter(config, init);
      BuffersDrained(config, init);
      StepEffect(HandlerAfter(config, init), last);
      if !Reports?(config, last) {
        assert Ops(config, calls) == ops;
      } else if last.timing.None? {
        HistSnoc(ops, Swept(last.clocks.sweptAt));
        assert OpsOf(config, last) == [Swept(last.clocks.sweptAt)];
      } else {
        var t := last.timing.value;
        var seen := Observed(DurationKey(t.series), t.seconds, last.clocks.seenAt);
        HistSnoc(ops, seen);
        HistSnoc(ops + [seen], Swept(last.clocks.sweptAt));
        assert Ops(config, calls) == ops + [seen] + [Swept(last.clocks.sweptAt)];
      }
    }
  }

  /** The metrics of a counting call that records a point: its sum, and its duration histogram if it has one. */
  function CountMetrics(config: Config, counters: CounterCache, hists: HistCache, call: Call): seq<Metric>
    requires Reports?(config, call)
  {
    [CountSum(call.target.value.kind,
              Points(config, call.clocks.now, Samples(counters, Hit(call.target.value, call.order))))]
    + DurationMetrics(hists, call.timing, call.clocks)
  }

  function DurationMetrics(hists: HistCache, timing: Option<Timing>, clocks: Clocks): seq<Metric> {
    match timing
    case None => []
    case Some(t) =>
      [DurationPoint(t.series, ObserveKey(hists, DurationKey(t.series), t.seconds, clocks.seenAt).1,
                     clocks.reportedAt)]
  }

  lemma CountStepOutcome(s: HandlerState, call: Call)
    requires s.buffers == NO_POINTS && Reports?(s.config, call)
    ensures Step(s, call).1 == Emitted([CountMetrics(s.config, s.counters, s.hists, call)])
  {
    CountEmission(s, call.target.value, call.order, call.clocks.now);
  }

  /** What a counting call that records a point returns, after any run: the reports of the two algorithms. */
  lemma CountOutcome(config: Config, calls: seq<Call>, call: Call)
    requires Reports?(config, call)
    ensures LastOutcome(config, calls + [call]) ==
              Emitted([CountMetrics(config, CacheAfter(Contacts(Hits(calls))), HistAfter(Ops(config, calls)), call)])
  {
    assert (calls + [call])[..|calls|] == calls;
    BuffersDrained(config, calls);
    CountersAfter(config, calls);
    HistsAfter(config, calls);
    CountStepOutcome(HandlerAfter(config, calls), call);
  }

  // ---- The emitted stream ----

  /** An emitted count without its timestamps. */
  type Count = (Attributes, int)

  function CountsIn(points: seq<Point>): (cs: seq<Count>)
    ensures |cs| == |points|
    ensures forall i :: 0 <= i < |points| ==> cs[i] == (points[i].attributes, points[i].value)
  {
    seq(|points|, i requires 0 <= i < |points| => (points[i].attributes, points[i].value))
  }

  function CountsInMetrics(metrics: seq<Metric>): seq<Count> {
    if metrics == [] then []
    else (match metrics[0] case CountSum(_, points) => CountsIn(points) case _ => []) + CountsInMetrics(metrics[1..])
  }

  function CountsInOutcome(out: Outcome): seq<Count> {
    match out
    case IndexPanic => []
    case Emitted(resources) => if resources == [] then [] else CountsInMetrics(resources[0])
  }

  /** The counts a run of critical sections emits, in lock order. */
  function EmittedCounts(config: Config, calls: seq<Call>): seq<Count>
    decreases |calls|
  {
    if calls == [] then []
    else EmittedCounts(config, calls[..|calls| - 1]) + CountsInOutcome(LastOutcome(config, calls))
  }

  function CountFor(s: Sample): Count {
    var t := s.target;
    (CountAttributes(t.kind, t.repo, t.labels, t.status.Name(), t.conclusion.Name(), t.isMain), s.value)
  }

  function CountsFor(samples: seq<Sample>): (cs: seq<Count>)
    ensures |cs| == |samples|
    ensures forall i :: 0 <= i < |samples| ==> cs[i] == CountFor(samples[i])
  {
    seq(|samples|, i requires 0 <= i < |samples| => CountFor(samples[i]))
  }

  lemma CountsOfMetrics(config: Config, counters: CounterCache, hists: HistCache, call: Call)
    requires Reports?(config, call)
    ensures CountsInMetrics(CountMetrics(config, counters, hists, call))
            == CountsFor(Samples(counters, Hit(call.target.value, call.order)))
  {
    var samples := Samples(counters, Hit(call.target.value, call.order));
    var points := Points(config, call.clocks.now, samples);
    var durations := DurationMetrics(hists, call.timing, call.clocks);
    var metrics := CountMetrics(config, counters, hists, call);
    assert CountsIn(points) == CountsFor(samples);
    assert metrics[0] == CountSum(call.target.value.kind, points) && metrics[1..] == durations;
    if durations != [] {
      assert durations[1..] == [];
    }
    assert CountsInMetrics(durations) == [];
    assert CountsIn(points) + [] == CountsIn(points);
  }

  lemma CountsOfCall(config: Config, calls: seq<Call>, call: Call)
    ensures CountsInOutcome(LastOutcome(config, calls + [call])) ==
              if Reports?(config, call)
              then CountsFor(Samples(CacheAfter(Contacts(Hits(calls))), Hit(call.target.value, call.order)))
              else []
  {
    if Reports?(config, call) {
      CountOutcome(config, calls, call);
      CountsOfMetrics(config, CacheAfter(Contacts(Hits(calls))), HistAfter(Ops(config, calls)), call);
    } else {
      BuffersDrained(config, calls);
      HandlerSnoc(config, calls, call);
      NoCounts(HandlerAfter(config, calls), call);
    }
  }

  lemma NoCounts(s: HandlerState, call: Call)
    requires s.buffers == NO_POINTS && !Reports?(s.config, call)
    ensures CountsInOutcome(Step(s, call).1) == []
  {
    if call.CountCall? {
      StepEffect(s, call);
    } else if call.BuildInfoCall? && s.config.buildInfoEnabled {
      var recorded := s.buffers.RecordBuildInfo(s.config, call.now, 1, call.version);
      var only := [BuildInfoGauge(recorded.info)];
      assert recorded.Metrics() == only && only[1..] == [];
      assert CountsInMetrics(only) == [] + [];
    }
  }

  lemma CountsForAppend(a: seq<Sample>, b: seq<Sample>)
    ensures CountsFor(a + b) == CountsFor(a) + CountsFor(b)
  {
    var ab := a + b;
    forall i | 0 <= i < |ab|
      ensures CountsFor(ab)[i] == (CountsFor(a) + CountsFor(b))[i]
    {
      assert CountsFor(ab)[i] == CountFor(ab[i]);
    }
  }

  lemma SampleStreamSnoc(hits: seq<Hit>, h: Hit)
    ensures SampleStream(hits + [h]) == SampleStream(hits) + Samples(CacheAfter(Contacts(hits)), h)
  {
    assert (hits + [h])[..|hits|] == hits;
  }

  /** The samples whose kind of sum is enabled. */
  function Visible(config: Config, samples: seq<Sample>): seq<Sample>
    decreases |samples|
  {
    if samples == [] then []
    else
      var last := samples[|samples| - 1];
      Visible(config, samples[..|samples| - 1]) + if config.Enabled(last.target.kind) then [last] else []
  }

  lemma {:induction false} VisibleAppend(config: Config, a: seq<Sample>, b: seq<Sample>)
    ensures Visible(config, a + b) == Visible(config, a) + Visible(config, b)
    decreases |b|
  {
    if b == [] {
      assert a + b == a;
    } else {
      assert (a + b)[..|a + b| - 1] == a + b[..|b| - 1];
      VisibleAppend(config, a, b[..|b| - 1]);
    }
  }

  lemma {:induction false} VisibleOfKind(config: Config, samples: seq<Sample>, kind: Kind)
    requires OfKind(samples, kind)
    ensures Visible(config, samples) == if config.Enabled(kind) then samples else []
    decreases |samples|
  {
    if samples != [] {
      var init, last := samples[..|samples| - 1], samples[|samples| - 1];
      VisibleOfKind(config, init, kind);
      assert samples == init + [last] && last.target.kind == kind;
    }
  }

  /** What the last call emits are its samples, if their kind of sum is enabled. */
  lemma CountsAreVisible(config: Config, calls: seq<Call>, call: Call)
    ensures CountsInOutcome(LastOutcome(config, calls + [call])) ==
              if HitsOf(call) == [] then []
              else CountsFor(Visible(config, Samples(CacheAfter(Contacts(Hits(calls))), HitsOf(call)[0])))
  {
    CountsOfCall(config, calls, call);
    if HitsOf(call) != [] {
      var hit := HitsOf(call)[0];
      var samples := Samples(CacheAfter(Contacts(Hits(calls))), hit);
      SamplesOfKind(CacheAfter(Contacts(Hits(calls))), hit);
      VisibleOfKind(config, samples, hit.target.kind);
    }
  }

  /**
   * The counts that leave the handler are the samples of the counter algorithm whose kind of sum is enabled, in
   * order and with their attributes: nothing is dropped, repeated or carried over.
   */
  lemma {:induction false} EmittedCountsAreSamples(config: Config, calls: seq<Call>)
    ensures EmittedCounts(config, calls) == CountsFor(Visible(config, SampleStream(Hits(calls))))
    decreases |calls|
  {
    if calls == [] {
      assert SampleStream(Hits(calls)) == [];
    } else {
      var init, last := calls[..|calls| - 1], calls[|calls| - 1];
      assert calls == init + [last];
      EmittedCountsAreSamples(config, init);
      CountsAreVisible(config, init, last);
      EmittedNext(config, init, last);
    }
  }

  lemma EmittedNext(config: Config, init: seq<Call>, last: Call)
    ensures CountsFor(Visible(config, SampleStream(Hits(init + [last])))) ==
              CountsFor(Visible(config, SampleStream(Hits(init))))
              + if HitsOf(last) == [] then []
                else CountsFor(Visible(config, Samples(CacheAfter(Contacts(Hits(init))), HitsOf(last)[0])))
  {
    assert (init + [last])[..|init|] == init;
    if HitsOf(last) == [] {
      assert Hits(init + [last]) == Hits(init);
    } else {
      var before, added := SampleStream(Hits(init)), Samples(CacheAfter(Contacts(Hits(init))), HitsOf(last)[0]);
      SampleStreamSnoc(Hits(init), HitsOf(last)[0]);
      VisibleAppend(config, before, added);
      CountsForAppend(Visible(config, before), Visible(config, added));
    }
  }
}
