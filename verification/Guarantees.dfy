// What a consumer of the metrics may rely on, over every run of critical sections: the
// results about counters, histograms and the handler put together.
module Guarantees {
  import opened Basics
  import opened Telemetry
  import opened CacheKeys
  import opened Counters
  import opened CounterStreams
  import opened CountEvents
  import opened Histograms
  import opened Engine

  // ---- Counters ----

  /** The attributes of the points that report a target. */
  function AttributesOf(t: Target): Attributes {
    CountAttributes(t.kind, t.repo, t.labels, t.status.Name(), t.conclusion.Name(), t.isMain)
  }

  /** The emitted values with the given attributes, in the order they were emitted. */
  function EmittedValues(counts: seq<Count>, attributes: Attributes): seq<int>
    decreases |counts|
  {
    if counts == [] then []
    else
      var n := |counts| - 1;
      EmittedValues(counts[..n], attributes) + if counts[n].0 == attributes then [counts[n].1] else []
  }

  /** Points tell targets apart: the names of the enumerations are all different. */
  lemma AttributesNameTargets(t: Target, u: Target)
    requires t.Pair() in PAIRS && u.Pair() in PAIRS
    ensures AttributesOf(t) == AttributesOf(u) <==> t == u
  {
    StatusTableComplete(t.status, "");
    StatusTableComplete(u.status, "");
    ConclusionTableComplete(t.conclusion, "");
    ConclusionTableComplete(u.conclusion, "");
  }

  lemma EmittedNext(counts: seq<Count>, count: Count, attributes: Attributes)
    ensures EmittedValues(counts + [count], attributes)
            == EmittedValues(counts, attributes) + if count.0 == attributes then [count.1] else []
  {
    assert (counts + [count])[..|counts|] == counts;
  }

  lemma CountsNext(samples: seq<Sample>, s: Sample)
    ensures CountsFor(samples + [s]) == CountsFor(samples) + [CountFor(s)]
  {
    CountsForAppend(samples, [s]);
    assert CountsFor([s]) == [CountFor(s)];
  }

  /** Of the visible samples, those of a series are emitted under its attributes. */
  lemma {:induction false} ValuesBySeries(config: Config, samples: seq<Sample>, t: Target)
    requires PlainSamples(samples) && t.Pair() in PAIRS
    ensures EmittedValues(CountsFor(Visible(config, samples)), AttributesOf(t))
            == if config.Enabled(t.kind) then SeriesValues(samples, t) else []
    decreases |samples|
  {
    if samples != [] {
      var n := |samples| - 1;
      var last, seen := samples[n], Visible(config, samples[..n]);
      ValuesBySeries(config, samples[..n], t);
      AttributesNameTargets(last.target, t);
      if config.Enabled(last.target.kind) {
        CountsNext(seen, last);
        EmittedNext(CountsFor(seen), CountFor(last), AttributesOf(t));
        assert CountFor(last) == (AttributesOf(last.target), last.value);
      } else {
        assert Visible(config, samples) == seen;
      }
    }
  }

  /**
   * The values a run emits for one series, whatever else it emits, if the sum of its kind is enabled: over at most
   * 2500 groups, with colon-free repositories and no job labelled "default", they count up one by one from a seed 0
   * or a first 1 to the number of accepted events of that series, and there are none as long as its group has had
   * no event.
   */
  lemma EmittedSeriesCountsUp(config: Config, calls: seq<Call>, t: Target)
    requires config.Enabled(t.kind) && ValidCalls(calls)
    requires |Groups(Contacts(Hits(calls)))| <= 2500 && |Hits(calls)| < TWO_TO_63
    requires PlainHits(Hits(calls)) && Plain(t)
    ensures var values := EmittedValues(EmittedCounts(config, calls), AttributesOf(t));
            if t.Group() in Groups(Contacts(Hits(calls)))
            then CountsUp(values, KindCount(Hits(calls), t.kind, t.Key()))
            else values == []
  {
    var hits := Hits(calls);
    HitsValid(calls);
    EmittedCountsAreSamples(config, calls);
    StreamIsPlain(hits);
    ValuesBySeries(config, SampleStream(hits), t);
    SeriesCountsUp(hits, t);
  }

  /**
   * As long as at most 2500 groups have been seen, the handler's cache has all 40 counters of each of them and no
   * other, and every counter is the number of accepted events with its key.
   */
  lemma CountersAreCounts(config: Config, calls: seq<Call>)
    requires ValidCalls(calls) && |Groups(Contacts(Hits(calls)))| <= 2500
    ensures Exact(HandlerAfter(config, calls).counters, Contacts(Hits(calls)))
  {
    HitsValid(calls);
    ContactsProps(Hits(calls));
    CountersAfter(config, calls);
    RunExact(Contacts(Hits(calls)));
  }

  // ---- Histograms ----

  /** The call observes a duration of the series. */
  predicate Times(config: Config, call: Call, series: DurationSeries) {
    Reports?(config, call) && call.timing.Some? && call.timing.value.series == series
  }

  function ObservationOf(call: Call): Observation
    requires call.CountCall? && call.timing.Some?
  {
    Observation(call.timing.value.seconds, call.clocks.seenAt)
  }

  /** The durations of the completed jobs or runs of one series, in lock order. */
  function SeriesDurations(config: Config, calls: seq<Call>, series: DurationSeries): seq<Observation>
    decreases |calls|
  {
    if calls == [] then []
    else
      var last := calls[|calls| - 1];
      SeriesDurations(config, calls[..|calls| - 1], series)
      + if Times(config, last, series) then [ObservationOf(last)] else []
  }

  /** Every series observed can be told from its key. */
  ghost predicate SeparableSeries(config: Config, calls: seq<Call>) {
    forall i :: 0 <= i < |calls| && Reports?(config, calls[i]) && calls[i].timing.Some? ==>
      Separable(calls[i].timing.value.series)
  }

  function SeriesSeen(config: Config, calls: seq<Call>): set<DurationSeries>
    decreases |calls|
  {
    if calls == [] then {}
    else
      var last := calls[|calls| - 1];
      SeriesSeen(config, calls[..|calls| - 1])
      + if Reports?(config, last) && last.timing.Some? then {last.timing.value.series} else {}
  }

  /** The operations of a call: an observation if it has a duration, then a sweep. */
  lemma OpsNext(config: Config, calls: seq<Call>, call: Call)
    requires Reports?(config, call)
    ensures Ops(config, calls + [call]) ==
              match call.timing
              case None => Ops(config, calls) + [Swept(call.clocks.sweptAt)]
              case Some(t) => Ops(config, calls) + [Observed(DurationKey(t.series), t.seconds, call.clocks.seenAt)]
                              + [Swept(call.clocks.sweptAt)]
  {
    assert (calls + [call])[..|calls|] == calls;
    if call.timing.None? {
      assert OpsOf(config, call) == [Swept(call.clocks.sweptAt)];
    } else {
      var t := call.timing.value;
      var seen := Observed(DurationKey(t.series), t.seconds, call.clocks.seenAt);
      assert OpsOf(config, call) == [seen] + [Swept(call.clocks.sweptAt)];
    }
  }

  lemma OpsSilent(config: Config, calls: seq<Call>, call: Call)
    requires !Reports?(config, call)
    ensures Ops(config, calls + [call]) == Ops(config, calls)
  {
    assert (calls + [call])[..|calls|] == calls;
  }

  lemma AllNext(ops: seq<Op>, seen: Op, at: int, k: string)
    requires seen.Observed?
    ensures All(ops + [Swept(at)], k) == All(ops, k)
    ensures All(ops + [seen], k) == All(ops, k) + if seen.key == k then [Observation(seen.duration, seen.at)] else []
  {
    assert (ops + [seen])[..|ops|] == ops && (ops + [Swept(at)])[..|ops|] == ops;
  }

  /** What one call adds to the observations under a key. */
  lemma AllAfterCall(config: Config, calls: seq<Call>, call: Call, k: string)
    ensures All(Ops(config, calls + [call]), k) ==
              All(Ops(config, calls), k)
              + if Reports?(config, call) && call.timing.Some? && DurationKey(call.timing.value.series) == k
                then [ObservationOf(call)] else []
  {
    var ops := Ops(config, calls);
    if !Reports?(config, call) {
      OpsSilent(config, calls, call);
    } else if call.timing.None? {
      OpsNext(config, calls, call);
      AllNext(ops, Observed("", 0.0, 0), call.clocks.sweptAt, k);
    } else {
      var t := call.timing.value;
      var seen := Observed(DurationKey(t.series), t.seconds, call.clocks.seenAt);
      OpsNext(config, calls, call);
      AllNext(ops, seen, 0, k);
      AllNext(ops + [seen], seen, call.clocks.sweptAt, k);
    }
  }

  /** The call observes a duration of another series under the key of this one. */
  predicate Intrudes(config: Config, call: Call, series: DurationSeries) {
    && Reports?(config, call) && call.timing.Some?
    && call.timing.value.series != series && DurationKey(call.timing.value.series) == DurationKey(series)
  }

  /** No other series has been observed under the key. */
  ghost predicate Alone(config: Config, calls: seq<Call>, series: DurationSeries) {
    forall i :: 0 <= i < |calls| ==> !Intrudes(config, calls[i], series)
  }

  /** What a call adds to the observations under the key of a series, and to those of the series itself. */
  lemma BothAfterCall(config: Config, calls: seq<Call>, call: Call, series: DurationSeries)
    ensures All(Ops(config, calls + [call]), DurationKey(series)) ==
              All(Ops(config, calls), DurationKey(series))
              + if Times(config, call, series) || Intrudes(config, call, series) then [ObservationOf(call)] else []
    ensures SeriesDurations(config, calls + [call], series) ==
              SeriesDurations(config, calls, series) + if Times(config, call, series) then [ObservationOf(call)] else []
  {
    AllAfterCall(config, calls, call, DurationKey(series));
    assert (calls + [call])[..|calls|] == calls;
  }

  /** What is observed under the key of a series is what happened to the series if and only if it is alone there. */
  lemma {:induction false} AloneIff(config: Config, calls: seq<Call>, series: DurationSeries)
    ensures |SeriesDurations(config, calls, series)| <= |All(Ops(config, calls), DurationKey(series))| <= |calls|
    ensures Alone(config, calls, series)
            <==> |All(Ops(config, calls), DurationKey(series))| == |SeriesDurations(config, calls, series)|
    ensures Alone(config, calls, series)
            <==> All(Ops(config, calls), DurationKey(series)) == SeriesDurations(config, calls, series)
    decreases |calls|
  {
    if calls != [] {
      var init, last := calls[..|calls| - 1], calls[|calls| - 1];
      assert calls == init + [last];
      AloneIff(config, init, series);
      BothAfterCall(config, init, last, series);
      assert Alone(config, calls, series) <==> Alone(config, init, series) && !Intrudes(config, last, series);
    }
  }

  /** Series that can be told from their keys are alone. */
  lemma SeparableAreAlone(config: Config, calls: seq<Call>, series: DurationSeries)
    requires SeparableSeries(config, calls) && Separable(series)
    ensures Alone(config, calls, series)
  {
    forall i | 0 <= i < |calls|
      ensures !Intrudes(config, calls[i], series)
    {
      if Reports?(config, calls[i]) && calls[i].timing.Some? {
        DurationKeyInjective(calls[i].timing.value.series, series);
      }
    }
  }

  lemma ObservesNext(ops: seq<Op>, op: Op)
    ensures Observes(ops + [op]) == Observes(ops) + if op.Observed? then {op.key} else {}
  {
    assert (ops + [op])[..|ops|] == ops;
  }

  lemma ObservesAfterCall(config: Config, calls: seq<Call>, call: Call)
    ensures Observes(Ops(config, calls + [call])) ==
              Observes(Ops(config, calls))
              + if Reports?(config, call) && call.timing.Some? then {DurationKey(call.timing.value.series)} else {}
  {
    var ops := Ops(config, calls);
    if !Reports?(config, call) {
      OpsSilent(config, calls, call);
    } else {
      OpsNext(config, calls, call);
      if call.timing.None? {
        ObservesNext(ops, Swept(call.clocks.sweptAt));
      } else {
        var t := call.timing.value;
        var seen := Observed(DurationKey(t.series), t.seconds, call.clocks.seenAt);
        ObservesNext(ops, seen);
        ObservesNext(ops + [seen], Swept(call.clocks.sweptAt));
      }
    }
  }

  lemma OneMore(keys: set<string>, seen: set<DurationSeries>, series: DurationSeries)
    requires |keys| <= |seen| && (series in seen ==> DurationKey(series) in keys)
    ensures |keys + {DurationKey(series)}| <= |seen + {series}|
  {
    if series in seen {
      assert keys + {DurationKey(series)} == keys && seen + {series} == seen;
    }
  }

  /** There are no more keys than series. */
  lemma {:induction false} KeysOfSeries(config: Config, calls: seq<Call>)
    ensures |Observes(Ops(config, calls))| <= |SeriesSeen(config, calls)|
    ensures forall series :: series in SeriesSeen(config, calls) ==> DurationKey(series) in Observes(Ops(config, calls))
    decreases |calls|
  {
    if calls != [] {
      var init, last := calls[..|calls| - 1], calls[|calls| - 1];
      assert calls == init + [last];
      KeysOfSeries(config, init);
      ObservesAfterCall(config, init, last);
      if Reports?(config, last) && last.timing.Some? {
        OneMore(Observes(Ops(config, init)), SeriesSeen(config, init), last.timing.value.series);
      }
    }
  }

  /** With at most 50000 series in all, the cache is never crowded. */
  lemma FewSeries(config: Config, calls: seq<Call>)
    requires |SeriesSeen(config, calls)| <= 50000
    ensures NeverCrowded(Ops(config, calls))
  {
    KeysOfSeries(config, calls);
    FewAreNeverCrowded(Ops(config, calls));
  }

  /** The point counts, adds up and sorts into its buckets exactly these observations. */
  ghost predicate Describes(h: HistogramPoint, obs: seq<Observation>) {
    && h.count == |obs| % 0x1_0000_0000_0000_0000
    && h.sum == Total(obs)
    && h.bounds == [5.0, 15.0, 30.0, 60.0, 300.0, 600.0, 1800.0]
    && |h.buckets| == 8
    && forall i :: 0 <= i < 8 ==> h.buckets[i] == CountIn(obs, h.bounds, i) % 0x1_0000_0000_0000_0000
  }

  /** The outcome is one resource with a sum and, after it, the histogram of the series with these observations. */
  ghost predicate ReportsDurations(out: Outcome, series: DurationSeries, at: int, obs: seq<Observation>) {
    && out.Emitted? && |out.resources| == 1 && |out.resources[0]| == 2
    && out.resources[0][0].CountSum? && out.resources[0][1].DurationHistogram?
    && out.resources[0][1].point.ts == at && out.resources[0][1].point.series == series
    && Describes(out.resources[0][1].point, obs)
  }

  lemma SummaryDescribed(series: DurationSeries, obs: seq<Observation>, at: int, m: Metric)
    requires obs != [] && m == DurationPoint(series, Summary(obs, DURATION_BOUNDS), at)
    ensures m.DurationHistogram? && m.point.ts == at && m.point.series == series && Describes(m.point, obs)
  {
  }

  /** What the call reports: the histogram of everything observed under the key, if it was never forgotten. */
  lemma EmittedHistogram(config: Config, calls: seq<Call>, call: Call, t: Events.Timing, all: seq<Observation>)
    requires Reports?(config, call) && call.timing == Some(t)
    requires ClockOrdered(Ops(config, calls + [call])) && NeverCrowded(Ops(config, calls + [call]))
    requires all == All(Ops(config, calls + [call]), DurationKey(t.series))
    requires !WasForgotten(Ops(config, calls), DurationKey(t.series))
    ensures all != [] && all[|all| - 1] == ObservationOf(call)
    ensures ReportsDurations(LastOutcome(config, calls + [call]), t.series, call.clocks.reportedAt, all)
  {
    var at, ops, k := call.clocks.seenAt, Ops(config, calls), DurationKey(t.series);
    var seen := Observed(k, t.seconds, at);
    OpsNext(config, calls, call);
    EarlierOps(ops + [seen], Swept(call.clocks.sweptAt));
    AllAfterCall(config, calls, call, k);
    AllNext(ops, seen, 0, k);
    ReportedWhole(ops, k, t.seconds, at);
    DurationReported(config, calls, call, t, Summary(all, DURATION_BOUNDS));
    SummaryDescribed(t.series, all, call.clocks.reportedAt, LastOutcome(config, calls + [call]).resources[0][1]);
  }

  /** Less than 24 hours between the events of a series that is alone under its key keep it from being forgotten. */
  lemma ActiveIsNotForgotten(config: Config, calls: seq<Call>, call: Call, t: Events.Timing)
    requires Reports?(config, call) && call.timing == Some(t) && ClockOrdered(Ops(config, calls + [call]))
    requires Alone(config, calls + [call], t.series) && NeverIdle(SeriesDurations(config, calls + [call], t.series))
    ensures !WasForgotten(Ops(config, calls), DurationKey(t.series))
  {
    var ops, k := Ops(config, calls), DurationKey(t.series);
    var seen := Observed(k, t.seconds, call.clocks.seenAt);
    AloneIff(config, calls + [call], t.series);
    OpsNext(config, calls, call);
    EarlierOps(ops + [seen], Swept(call.clocks.sweptAt));
    AllNext(ops + [seen], seen, call.clocks.sweptAt, k);
    NeverForgotten(ops, k, t.seconds, call.clocks.seenAt);
  }

  /**
   * What a completed job or run is reported with: if no other series has its key, at most 50000 are live at any time
   * and the events of this one come less than 24 hours apart, then the count, sum and buckets of the point are those
   * of all durations of exactly this series since the start.
   */
  lemma EmittedHistogramIsHistory(config: Config, calls: seq<Call>, call: Call)
    requires Reports?(config, call) && call.timing.Some?
    requires Alone(config, calls + [call], call.timing.value.series)
    requires ClockOrdered(Ops(config, calls + [call])) && NeverCrowded(Ops(config, calls + [call]))
    requires NeverIdle(SeriesDurations(config, calls + [call], call.timing.value.series))
    ensures var all := SeriesDurations(config, calls + [call], call.timing.value.series);
            && all != []
            && all[|all| - 1] == Observation(call.timing.value.seconds, call.clocks.seenAt)
            && ReportsDurations(LastOutcome(config, calls + [call]), call.timing.value.series, call.clocks.reportedAt,
                                all)
  {
    var t := call.timing.value;
    ActiveIsNotForgotten(config, calls, call, t);
    AloneIff(config, calls + [call], t.series);
    EmittedHistogram(config, calls, call, t, SeriesDurations(config, calls + [call], t.series));
  }

  /**
   * And only then: where no sweep has found the key expired, the point reports the durations of exactly this series
   * if and only if no other series has been observed under its key.
   */
  lemma EmittedHistogramIsOwnIff(config: Config, calls: seq<Call>, call: Call, t: Events.Timing)
    requires Reports?(config, call) && call.timing == Some(t) && |calls| + 1 < TWO_TO_64
    requires ClockOrdered(Ops(config, calls + [call])) && NeverCrowded(Ops(config, calls + [call]))
    requires !WasForgotten(Ops(config, calls), DurationKey(t.series))
    ensures var own := SeriesDurations(config, calls + [call], t.series);
            && own != []
            && (ReportsDurations(LastOutcome(config, calls + [call]), t.series, call.clocks.reportedAt, own)
                <==> Alone(config, calls + [call], t.series))
  {
    var all := All(Ops(config, calls + [call]), DurationKey(t.series));
    var own := SeriesDurations(config, calls + [call], t.series);
    BothAfterCall(config, calls, call, t.series);
    AloneIff(config, calls + [call], t.series);
    EmittedHistogram(config, calls, call, t, all);
    if |own| < |all| {
      DifferentCounts(LastOutcome(config, calls + [call]).resources[0][1].point, all, own);
    }
  }

  lemma DifferentCounts(h: HistogramPoint, all: seq<Observation>, own: seq<Observation>)
    requires 0 < |own| < |all| < TWO_TO_64 && Describes(h, all)
    ensures !Describes(h, own)
  {
    DivModUnique(|all|, TWO_TO_64, 0, |all|);
    DivModUnique(|own|, TWO_TO_64, 0, |own|);
  }

  /** One observation: it is the count of 1 and the sum, and lies in the one bucket whose bounds are around it. */
  lemma FirstObserved(h: HistogramPoint, o: Observation)
    requires Describes(h, [o])
    ensures h.count == 1 && h.sum == o.duration
    ensures forall i :: 0 <= i < 8 ==>
              h.buckets[i] == if (i == 0 || h.bounds[i - 1] < o.duration) && (i == 7 || o.duration <= h.bounds[i])
                              then 1 else 0
  {
    assert [o][..|[o]| - 1] == [];
    assert Total([o]) == Total([]) + o.duration;
    forall i | 0 <= i < 8
      ensures CountIn([o], h.bounds, i) == if InBucket(o.duration, h.bounds, i) then 1 else 0
    {
      assert CountIn([], h.bounds, i) == 0;
    }
  }

  /**
   * The first event of a series, if no other has its key, reports a count of 1, its own duration as the sum, and 1
   * in the bucket of that duration and in no other.
   */
  lemma FirstDurationReported(config: Config, calls: seq<Call>, call: Call)
    requires Reports?(config, call) && call.timing.Some?
    requires SeriesDurations(config, calls, call.timing.value.series) == []
    requires Alone(config, calls + [call], call.timing.value.series)
    requires ClockOrdered(Ops(config, calls + [call])) && NeverCrowded(Ops(config, calls + [call]))
    ensures var out, seconds := LastOutcome(config, calls + [call]), call.timing.value.seconds;
            && out.Emitted? && |out.resources| == 1 && |out.resources[0]| == 2
            && out.resources[0][1].DurationHistogram?
            && var h := out.resources[0][1].point;
               && h.count == 1 && h.sum == seconds && |h.bounds| == 7 && |h.buckets| == 8
               && forall i :: 0 <= i < 8 ==>
                    h.buckets[i] == if (i == 0 || h.bounds[i - 1] < seconds) && (i == 7 || seconds <= h.bounds[i])
                                    then 1 else 0
  {
    var series := call.timing.value.series;
    BothAfterCall(config, calls, call, series);
    assert SeriesDurations(config, calls + [call], series) == [ObservationOf(call)];
    EmittedHistogramIsHistory(config, calls, call);
    FirstObserved(LastOutcome(config, calls + [call]).resources[0][1].point, ObservationOf(call));
  }

  lemma DurationReported(config: Config, calls: seq<Call>, call: Call, t: Events.Timing, h: Hist)
    requires Reports?(config, call) && call.timing == Some(t)
    requires ObserveKey(HistAfter(Ops(config, calls)), DurationKey(t.series), t.seconds, call.clocks.seenAt).1 == h
    ensures var out := LastOutcome(config, calls + [call]);
            && out.Emitted? && |out.resources| == 1 && |out.resources[0]| == 2
            && out.resources[0][0].CountSum?
            && out.resources[0][1] == DurationPoint(t.series, h, call.clocks.reportedAt)
  {
    CountOutcome(config, calls, call);
  }

  /**
   * Separability is needed: the first event of job "y" of workflow "w:x" is reported with a count of 2 if there was
   * one of job "x:y" of workflow "w" before.
   */
  lemma ConfusedSeries(config: Config, first: Call, second: Call, x: DurationSeries, y: DurationSeries)
    requires x == JobDuration("r", "w", "x:y", "l", "success", true)
    requires y == JobDuration("r", "w:x", "y", "l", "success", true)
    requires Times(config, first, x) && Times(config, second, y)
    requires first.clocks.sweptAt == first.clocks.seenAt
    ensures |SeriesDurations(config, [first] + [second], y)| == 1
    ensures var out := LastOutcome(config, [first] + [second]);
            && out.Emitted? && |out.resources| == 1 && |out.resources[0]| == 2
            && out.resources[0][1].DurationHistogram? && out.resources[0][1].point.count == 2
  {
    var k := DurationKey(x);
    ColonsMakeDurationKeysCollide("r", "l", "success", true);
    var t, u := first.timing.value, second.timing.value;
    OnlySecond(config, first, second, x, y);
    OpsOfFirst(config, first);
    FirstObservation(k, t.seconds, first.clocks.seenAt);
    var c := HistAfter(Ops(config, [first]));
    CountedTwice(c, k, u.seconds, second.clocks.seenAt);
    DurationReported(config, [first], second, u, ObserveKey(c, k, u.seconds, second.clocks.seenAt).1);
  }

  lemma OnlySecond(config: Config, first: Call, second: Call, x: DurationSeries, y: DurationSeries)
    requires x != y && Times(config, first, x) && Times(config, second, y)
    ensures SeriesDurations(config, [first] + [second], y) == [ObservationOf(second)]
  {
    assert ([first] + [second])[..1] == [first] && [first][..0] == [];
    assert SeriesDurations(config, [first], y) == [] + [];
  }

  lemma OpsOfFirst(config: Config, first: Call)
    requires Reports?(config, first) && first.timing.Some?
    ensures Ops(config, [first])
            == [Observed(DurationKey(first.timing.value.series), first.timing.value.seconds, first.clocks.seenAt)]
               + [Swept(first.clocks.sweptAt)]
  {
    assert [] + [first] == [first];
    OpsNext(config, [], first);
  }

  lemma CountedTwice(c: HistCache, k: string, d: real, at: int)
    requires k in c.items && c.items[k].count == 1
    ensures ObserveKey(c, k, d, at).1.count == 2
  {
  }

  /** One observation and a sweep at the same time leave its histogram in the cache. */
  lemma FirstObservation(k: string, d: real, at: int)
    ensures var c := HistAfter([Observed(k, d, at)] + [Swept(at)]);
            k in c.items && c.items[k].count == 1
  {
    var seen, swept := [Observed(k, d, at)], [Observed(k, d, at)] + [Swept(at)];
    assert seen[..0] == [] && swept[..1] == seen;
    assert Observes(seen) == {k};
    ObservesNext(seen, Swept(at));
    FewAreNeverCrowded(swept);
    RunSummarises(swept);
    assert Live(seen, k) == [Observation(d, at)];
    assert !Expired(Live(seen, k), at);
    assert Live(swept, k) == [Observation(d, at)];
  }
}
