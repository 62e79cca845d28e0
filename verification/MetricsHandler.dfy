// The metrics handler object: its caches and its builder are updated in place, one
// method call per critical section. Every method is specified by a step of the state
// machine in Engine, so what is proved there holds of the object.
module MetricsHandler {
  import opened Basics
  import opened Telemetry
  import opened CacheKeys
  import opened Counters
  import opened CountEvents
  import opened Histograms
  import opened Labels
  import opened Events
  import opened Engine
  import opened HistogramStore
  import Lru

  lemma SomeSequence<T>(s: set<T>) returns (q: seq<T>)
    ensures NoDup(q) && Elements(q) == s
    decreases |s|
  {
    q := [];
    if s != {} {
      var x :| x in s;
      var r := SomeSequence(s - {x});
      assert x !in Elements(r);
      q := r + [x];
      assert Elements(q) == Elements(r) + {x};
    }
  }

  // ---- Extending the seeding by one pair ----

  lemma {:induction false} StoreZerosSnoc(c: CounterCache, ks: seq<string>, k: string)
    ensures StoreZeros(c, ks + [k]) == StoreZeros(c, ks).Add(k, 0)
    decreases |ks|
  {
    if ks != [] {
      assert (ks + [k])[1..] == ks[1..] + [k];
      StoreZerosSnoc(c.Add(ks[0], 0), ks[1..], k);
    } else {
      assert ks + [k] == [k] && [k][1..] == [];
    }
  }

  lemma {:induction false} RecordSamplesSnoc(b: Buffers, config: Config, ts: int, samples: seq<Sample>, s: Sample)
    ensures RecordSamples(b, config, ts, samples + [s])
            == RecordSample(RecordSamples(b, config, ts, samples), config, ts, s)
    decreases |samples|
  {
    if samples != [] {
      assert (samples + [s])[1..] == samples[1..] + [s];
      RecordSamplesSnoc(RecordSample(b, config, ts, samples[0]), config, ts, samples[1..], s);
    } else {
      assert samples + [s] == [s] && [s][1..] == [];
    }
  }

  lemma {:induction false} WithoutSnoc<T>(s: seq<T>, y: T, x: T)
    requires y !in s
    ensures Without(s + [y], x) == if y == x then s else Without(s, x) + [y]
  {
    if s != [] {
      assert (s + [y])[1..] == s[1..] + [y];
      WithoutSnoc(s[1..], y, x);
      if y == x {
        assert s == [s[0]] + s[1..];
      }
    } else {
      assert s + [y] == [y];
    }
  }

  /** The counters and points after seeding the given pairs, in order. */
  ghost predicate SeededSoFar(c: CounterCache, b: Buffers, c0: CounterCache, b0: Buffers, config: Config, ts: int,
                              t: Target, done: seq<Pair>) {
    && c == StoreZeros(c0, KeysAlong(t.Group(), done))
    && b == RecordSamples(b0, config, ts, Zeros(t, done))
  }

  lemma SeedOne(c: CounterCache, b: Buffers, c0: CounterCache, b0: Buffers, config: Config, ts: int,
                t: Target, done: seq<Pair>, p: Pair)
    requires SeededSoFar(c, b, c0, b0, config, ts, t, done)
    ensures SeededSoFar(c.Add(KeyOf(t.Group(), p), 0), RecordSample(b, config, ts, Sample(t.Sibling(p), 0)),
                        c0, b0, config, ts, t, done + [p])
  {
    StoreZerosSnoc(c0, KeysAlong(t.Group(), done), KeyOf(t.Group(), p));
    assert KeysAlong(t.Group(), done + [p]) == KeysAlong(t.Group(), done) + [KeyOf(t.Group(), p)];
    RecordSamplesSnoc(b0, config, ts, Zeros(t, done), Sample(t.Sibling(p), 0));
    assert Zeros(t, done + [p]) == Zeros(t, done) + [Sample(t.Sibling(p), 0)];
  }

  /** The final store and point complete the event. */
  lemma CountComplete(s: HandlerState, t: Target, order: seq<Pair>, ts: int, c: CounterCache, b: Buffers, value: int)
    requires SeededSoFar(c, b, s.counters.Get(t.Key()).0, s.buffers, s.config, ts, t, SeededPairs(s, t, order))
    requires value == WrapInt64(Loaded(s.counters.Get(t.Key()).1) + 1)
    ensures s.(counters := c.Add(t.Key(), value), buffers := RecordSample(b, s.config, ts, Sample(t, value)))
            == CountEvent(s, Some(t), order, ts)
  {
    var last := Sample(t, value);
    SamplesAre(s, t, order, last);
    BumpIs(s, t, order, value);
    RecordSamplesSnoc(s.buffers, s.config, ts, Zeros(t, SeededPairs(s, t, order)), last);
  }

  /** The text under which an emission remembers what it has recorded. */
  function RecordedKey(kind: Kind, key: string): string {
    (if kind.Job? then "job:" else "run:") + key
  }

  lemma RecordedKeyInjective(kind: Kind, g: Group, p: Pair, q: Pair)
    requires RecordedKey(kind, KeyOf(g, p)) == RecordedKey(kind, KeyOf(g, q))
    ensures p == q
  {
    AfterTag(if kind.Job? then "job:" else "run:", KeyOf(g, p), KeyOf(g, q));
    KeyOfInjective(g, p, g, q);
  }

  ghost function ObservedAndSwept(s: HandlerState, timing: Option<Timing>, clocks: Clocks)
    : (HandlerState, seq<Metric>)
  {
    var (observed, durations) := ObserveTiming(s, timing, clocks);
    (SweepHandler(observed, clocks.sweptAt), durations)
  }

  /** Reads off a job event the counter it increments. */
  method ReadJobTarget(action: string, repo: Repo, job: JobInfo) returns (target: Option<Target>)
    ensures target == JobTarget(action, repo, job)
    ensures target.Some? <==> action in STATUS_BY_NAME
    ensures target.Some? ==>
              && target.value.kind == Job && target.value.repo == repo.fullName
              && target.value.labels == LabelString(job.labels)
              && target.value.status.Name()
                 == (if action == "completed" && job.conclusion == "cancelled" && job.steps == 1 then "aborted"
                     else action)
              && target.value.conclusion.Name()
                 == (if job.conclusion in CONCLUSION_BY_NAME then job.conclusion else "null")
              && (target.value.isMain <==> repo.defaultBranch == Some(job.headBranch))
  {
    StatusTableComplete(Completed, action);
    ConclusionTableComplete(Cancelled, job.conclusion);
    var labels := SortedLabels(job.labels);
    var status, conclusion := LookupStatus(action), LookupConclusion(job.conclusion);
    if status == Some(Completed) && conclusion == Some(Cancelled) && job.steps == 1 {
      status := Some(Aborted);
    }
    if conclusion == None {
      conclusion := Some(Null);
    }
    var isMain := false;
    if repo.defaultBranch.Some? && job.headBranch == repo.defaultBranch.value {
      isMain := true;
    }
    if status == None {
      return None;
    }
    return Some(Target(Job, repo.fullName, labels, status.value, conclusion.value, isMain));
  }

  method ReadRunTarget(action: string, repo: Repo, run: RunInfo) returns (target: Option<Target>)
    ensures target == RunTarget(action, repo, run)
    ensures target.Some? <==> action in STATUS_BY_NAME
    ensures target.Some? ==>
              && target.value.kind == Run && target.value.repo == repo.fullName
              && target.value.labels == "default"
              && target.value.status.Name() == action
              && target.value.conclusion.Name()
                 == (if run.conclusion in CONCLUSION_BY_NAME then run.conclusion else "null")
              && (target.value.isMain <==> repo.defaultBranch == Some(run.headBranch))
  {
    StatusTableComplete(Completed, action);
    ConclusionTableComplete(Cancelled, run.conclusion);
    var status, conclusion := LookupStatus(action), LookupConclusion(run.conclusion);
    if conclusion == None {
      conclusion := Some(Null);
    }
    var isMain := false;
    if repo.defaultBranch.Some? && run.headBranch == repo.defaultBranch.value {
      isMain := true;
    }
    if status == None {
      return None;
    }
    return Some(Target(Run, repo.fullName, RUN_LABELS, status.value, conclusion.value, isMain));
  }

  /** The seconds between two times, up to the greatest and least difference that int64 nanoseconds can hold. */
  ghost predicate Measures(seconds: real, from: int, to: int) {
    seconds * 1_000_000_000.0 ==
      if to - from > 0x7fff_ffff_ffff_ffff then 0x7fff_ffff_ffff_ffff as real
      else if to - from < -0x8000_0000_0000_0000 then -0x8000_0000_0000_0000 as real
      else (to - from) as real
  }

  /** The duration of a completed job, measured between its two times. */
  method ReadJobTiming(action: string, repo: Repo, job: JobInfo) returns (timing: Option<Timing>)
    ensures timing == JobTiming(action, repo, job)
    ensures timing.Some? <==> action == "completed" && job.startedAt.Some? && job.completedAt.Some?
    ensures timing.Some? ==>
              && Measures(timing.value.seconds, job.startedAt.value, job.completedAt.value)
              && timing.value.series.JobDuration?
              && timing.value.series.repo == repo.fullName && timing.value.series.workflow == job.workflowName
              && timing.value.series.job == job.name && timing.value.series.labels == LabelString(job.labels)
              && timing.value.series.conclusion == job.conclusion
              && (timing.value.series.isMain <==> repo.defaultBranch == Some(job.headBranch))
  {
    if action != "completed" || job.startedAt.None? || job.completedAt.None? {
      return None;
    }
    var labels := SortedLabels(job.labels);
    return Some(Timing(JobDuration(repo.fullName, job.workflowName, job.name, labels, job.conclusion,
                                   OnDefaultBranch(repo, job.headBranch)),
                       Seconds(job.startedAt.value, job.completedAt.value)));
  }

  /** The duration of a completed run, from its start to its last update. */
  method ReadRunTiming(action: string, repo: Repo, run: RunInfo) returns (timing: Option<Timing>)
    ensures timing == RunTiming(action, repo, run)
    ensures timing.Some? <==> action == "completed" && run.runStartedAt.Some? && run.updatedAt.Some?
    ensures timing.Some? ==>
              && Measures(timing.value.seconds, run.runStartedAt.value, run.updatedAt.value)
              && timing.value.series.RunDuration?
              && timing.value.series.repo == repo.fullName && timing.value.series.workflow == run.name
              && timing.value.series.conclusion == run.conclusion
              && (timing.value.series.isMain <==> repo.defaultBranch == Some(run.headBranch))
  {
    if action != "completed" || run.runStartedAt.None? || run.updatedAt.None? {
      return None;
    }
    return Some(Timing(RunDuration(repo.fullName, run.name, run.conclusion, OnDefaultBranch(repo, run.headBranch)),
                       Seconds(run.runStartedAt.value, run.updatedAt.value)));
  }

  /** The payload is there and names a repository. */
  predicate JobReadable(event: Option<JobEvent>) {
    && event.Some? && event.value.repo.Some? && event.value.job.Some?
    && event.value.repo.value.fullName != ""
  }

  predicate RunReadable(event: Option<RunEvent>) {
    && event.Some? && event.value.repo.Some? && event.value.run.Some?
    && event.value.repo.value.fullName != ""
  }

  /** The step a job event takes; `order` is the order the lookup tables happen to be iterated in. */
  ghost function JobCall(event: Option<JobEvent>, order: seq<Pair>, clocks: Clocks): Call {
    if !JobReadable(event) then BareCall
    else
      CountCall(JobTarget(event.value.action, event.value.repo.value, event.value.job.value), order,
                JobTiming(event.value.action, event.value.repo.value, event.value.job.value), clocks)
  }

  ghost function RunCall(event: Option<RunEvent>, order: seq<Pair>, clocks: Clocks): Call {
    if !RunReadable(event) then BareCall
    else
      CountCall(RunTarget(event.value.action, event.value.repo.value, event.value.run.value), order,
                RunTiming(event.value.action, event.value.repo.value, event.value.run.value), clocks)
  }

  /**
   * Which events make the handler panic, in any state with empty buffers: those it can read whose action is not in
   * the table of statuses, and all it can read while their kind of sum is disabled.
   */
  lemma JobEventPanicsIff(s: HandlerState, event: Option<JobEvent>, order: seq<Pair>, clocks: Clocks)
    requires s.buffers == NO_POINTS
    ensures Step(s, JobCall(event, order, clocks)).1 == IndexPanic
            <==> && event.Some? && event.value.repo.Some? && event.value.job.Some?
                 && event.value.repo.value.fullName != ""
                 && (event.value.action !in STATUS_BY_NAME || !s.config.jobsEnabled)
  {
    StepEffect(s, JobCall(event, order, clocks));
  }

  lemma RunEventPanicsIff(s: HandlerState, event: Option<RunEvent>, order: seq<Pair>, clocks: Clocks)
    requires s.buffers == NO_POINTS
    ensures Step(s, RunCall(event, order, clocks)).1 == IndexPanic
            <==> && event.Some? && event.value.repo.Some? && event.value.run.Some?
                 && event.value.repo.value.fullName != ""
                 && (event.value.action !in STATUS_BY_NAME || !s.config.runsEnabled)
  {
    StepEffect(s, RunCall(event, order, clocks));
  }

  /** GitHub announces every run with an event the handler panics on: "requested" is not in the table. */
  lemma RequestedRunPanics(config: Config, calls: seq<Call>, repo: Repo, run: RunInfo, order: seq<Pair>, clocks: Clocks)
    requires repo.fullName != ""
    ensures LastOutcome(config, calls + [RunCall(Some(RunEvent("requested", Some(repo), Some(run))), order, clocks)])
            == IndexPanic
  {
    var event := Some(RunEvent("requested", Some(repo), Some(run)));
    var call := RunCall(event, order, clocks);
    BuffersDrained(config, calls);
    RunEventPanicsIff(HandlerAfter(config, calls), event, order, clocks);
    HandlerSnoc(config, calls, call);
  }

  lemma StepPanics(s: HandlerState, counted: HandlerState, target: Option<Target>, order: seq<Pair>,
                   timing: Option<Timing>, clocks: Clocks)
    requires counted == CountEvent(s, target, order, clocks.now) && counted.buffers.Emission() == []
    ensures Step(s, CountCall(target, order, timing, clocks)) == (counted.(buffers := NO_POINTS), IndexPanic)
  {
  }

  lemma StepReports(s: HandlerState, counted: HandlerState, drained: HandlerState, target: Option<Target>,
                    order: seq<Pair>, timing: Option<Timing>, clocks: Clocks, swept: HandlerState,
                    durations: seq<Metric>)
    requires counted == CountEvent(s, target, order, clocks.now) && counted.buffers.Emission() != []
    requires drained == counted.(buffers := NO_POINTS)
    requires (swept, durations) == ObservedAndSwept(drained, timing, clocks)
    ensures var emission := counted.buffers.Emission();
            Step(s, CountCall(target, order, timing, clocks))
              == (swept, Emitted(emission[0 := emission[0] + durations]))
  {
  }

  class Handler {
    const config: Config
    const mb: MetricsBuilder
    const counters: Lru.Cache<string, int>
    const hists: HistogramCache

    ghost function Frame(): set<object>
      reads this, hists
    {
      {this, mb, counters} + hists.Frame()
    }

    ghost predicate Valid()
      reads this, Frame()
    {
      && counters.Valid() && hists.Valid() && mb.config == config
      && counters !in hists.Frame() && mb !in hists.Frame()
    }

    /** The state of the handler as a value. */
    ghost function Value(): HandlerState
      requires Valid()
      reads this, Frame()
    {
      HandlerState(config, counters.Value(), hists.Value(), mb.Value())
    }

    constructor (config: Config)
      ensures Valid() && fresh(Frame())
      ensures Value() == NewHandler(config)
    {
      this.config := config;
      mb := new MetricsBuilder(config);
      counters := new Lru.Cache(METRICS_MAX_CACHE_SIZE);
      hists := new HistogramCache();
    }

    // ---- Counting ----

    /** The seeding of one pair of the tables; the pair that is hit is passed over. */
    method SeedPair(t: Target, ts: int, p: Pair, recorded0: set<string>, ghost order: seq<Pair>,
                    ghost c0: CounterCache, ghost b0: Buffers) returns (recorded: set<string>)
      requires counters.Valid() && mb.config == config && p !in order
      requires Recorded(recorded0, t, order)
      requires SeededSoFar(counters.Value(), mb.Value(), c0, b0, config, ts, t, Without(order, t.Pair()))
      modifies counters, mb
      ensures counters.Valid() && Recorded(recorded, t, order + [p])
      ensures SeededSoFar(counters.Value(), mb.Value(), c0, b0, config, ts, t, Without(order + [p], t.Pair()))
    {
      WithoutSnoc(order, p, t.Pair());
      if p.0 == t.status && p.1 == t.conclusion {
        WithoutAbsent(order, t.Pair());
        recorded := recorded0;
        return;
      }
      SeedOne(counters.Value(), mb.Value(), c0, b0, config, ts, t, Without(order, t.Pair()), p);
      var key := CacheKey(t.repo, t.labels, p.0, p.1, t.isMain);
      assert key == KeyOf(t.Group(), p);
      NotYetRecorded(recorded0, t, order, p);
      counters.Add(key, 0);
      recorded := recorded0;
      if RecordedKey(t.kind, key) !in recorded {
        recorded := recorded + {RecordedKey(t.kind, key)};
        mb.RecordCountDataPoint(ts, 0, t.kind, t.repo, t.labels, p.0, p.1, t.isMain);
      }
    }

    /** Seeds the group of a first contact: both lookup tables are iterated in an arbitrary order. */
    method SeedGroup(t: Target, ts: int, recorded0: set<string>) returns (ghost order: seq<Pair>)
      requires counters.Valid() && mb.config == config
      requires recorded0 == {RecordedKey(t.kind, t.Key())}
      modifies counters, mb
      ensures counters.Valid() && IsIterationOrder(order)
      ensures SeededSoFar(counters.Value(), mb.Value(), old(counters.Value()), old(mb.Value()), config, ts, t,
                          Without(order, t.Pair()))
    {
      var recorded := recorded0;
      ghost var c0, b0 := counters.Value(), mb.Value();
      order := [];
      NothingSeeded(c0, b0, config, ts, t);
      var statuses := STATUSES;
      while statuses != {}
        invariant statuses <= STATUSES
        invariant counters.Valid()
        invariant NoDup(order) && Elements(order) == Rows(STATUSES - statuses)
        invariant Recorded(recorded, t, order)
        invariant SeededSoFar(counters.Value(), mb.Value(), c0, b0, config, ts, t, Without(order, t.Pair()))
        decreases |statuses|
      {
        var s :| s in statuses;
        ghost var rows := STATUSES - statuses;
        var conclusions := CONCLUSIONS;
        while conclusions != {}
          invariant conclusions <= CONCLUSIONS
          invariant counters.Valid()
          invariant NoDup(order) && Elements(order) == Rows(rows) + RowOf(s, CONCLUSIONS - conclusions)
          invariant Recorded(recorded, t, order)
          invariant SeededSoFar(counters.Value(), mb.Value(), c0, b0, config, ts, t, Without(order, t.Pair()))
          decreases |conclusions|
        {
          var c :| c in conclusions;
          PairVisited(order, rows, s, conclusions, c);
          recorded := SeedPair(t, ts, (s, c), recorded, order, c0, b0);
          order := order + [(s, c)];
          conclusions := conclusions - {c};
        }
        RowDone(rows, s, statuses);
        statuses := statuses - {s};
      }
      assert STATUSES - statuses == STATUSES;
    }

    /** Loads the counter, and seeds its group if it is not there. */
    method LoadAndSeed(t: Target, ts: int) returns (cur: Option<int>, ghost order: seq<Pair>)
      requires counters.Valid() && mb.config == config && t.Pair() in PAIRS
      modifies counters, mb
      ensures counters.Valid() && IsIterationOrder(order) && cur == old(counters.Value()).Get(t.Key()).1
      ensures SeededSoFar(counters.Value(), mb.Value(), old(counters.Value()).Get(t.Key()).0, old(mb.Value()), config,
                          ts, t, if cur.Some? then [] else Without(order, t.Pair()))
    {
      var key := CacheKey(t.repo, t.labels, t.status, t.conclusion, t.isMain);
      cur := counters.Get(key);
      var recorded := {RecordedKey(t.kind, key)};
      if cur.None? {
        order := SeedGroup(t, ts, recorded);
      } else {
        order := SomeSequence(PAIRS);
        assert KeysAlong(t.Group(), []) == [] && Zeros(t, []) == [];
      }
    }

    /** Counts an accepted event: load, seed on a miss, store, record. */
    method CountAccepted(t: Target, ts: int) returns (ghost order: seq<Pair>)
      requires counters.Valid() && mb.config == config && t.Pair() in PAIRS
      modifies counters, mb
      ensures counters.Valid() && IsIterationOrder(order)
      ensures forall hists: HistCache ::
                HandlerState(config, counters.Value(), hists, mb.Value())
                == CountEvent(HandlerState(config, old(counters.Value()), hists, old(mb.Value())), Some(t), order, ts)
    {
      ghost var c0, b0 := counters.Value(), mb.Value();
      var cur;
      cur, order := LoadAndSeed(t, ts);
      var key, value := CacheKey(t.repo, t.labels, t.status, t.conclusion, t.isMain), WrapInt64(Loaded(cur) + 1);
      forall hists: HistCache
        ensures HandlerState(config, counters.Value().Add(key, value), hists,
                             RecordSample(mb.Value(), config, ts, Sample(t, value)))
                == CountEvent(HandlerState(config, c0, hists, b0), Some(t), order, ts)
      {
        CountComplete(HandlerState(config, c0, hists, b0), t, order, ts, counters.Value(), mb.Value(), value);
      }
      counters.Add(key, value);
      mb.RecordCountDataPoint(ts, value, t.kind, t.repo, t.labels, t.status, t.conclusion, t.isMain);
    }

    // ---- Durations ----

    /** Observes a completed job's or run's duration and reports its histogram. */
    method AppendDuration(timing: Option<Timing>, clocks: Clocks) returns (durations: seq<Metric>)
      requires Valid()
      modifies hists, hists.Frame()
      ensures Valid() && fresh(hists.Frame() - old(hists.Frame()))
      ensures (Value(), durations) == ObserveTiming(old(Value()), timing, clocks)
    {
      if timing.None? {
        return [];
      }
      var t := timing.value;
      var state := hists.Observe(DurationKey(t.series), t.seconds, clocks.seenAt);
      durations := [DurationHistogram(HistogramPoint(clocks.reportedAt, state.count, state.sum, DURATION_BOUNDS,
                                                     state.bucketCounts[..], t.series))];
    }

    // ---- The critical sections ----

    method BuildInfoMetrics(now: int, version: string) returns (out: Outcome)
      requires Valid()
      modifies mb
      ensures Valid()
      ensures (Value(), out) == Step(old(Value()), BuildInfoCall(now, version))
    {
      ghost var before := Value();
      mb.RecordBuildInfoDataPoint(now, 1, version);
      assert Value() == before.(buffers := before.buffers.RecordBuildInfo(config, now, 1, version));
      var resources := mb.Emit();
      return Emitted(resources);
    }

    method EmitBare() returns (out: Outcome)
      requires Valid()
      modifies mb
      ensures Valid()
      ensures (Value(), out) == Step(old(Value()), BareCall)
    {
      var resources := mb.Emit();
      return Emitted(resources);
    }

    /** From lock to unlock: count, emit, observe, sweep. */
    method CountAndObserve(target: Option<Target>, timing: Option<Timing>, clocks: Clocks)
      returns (out: Outcome, ghost order: seq<Pair>)
      requires Valid() && (target.Some? ==> target.value.Pair() in PAIRS)
      modifies Frame()
      ensures Valid() && fresh(Frame() - old(Frame()))
      ensures ValidCall(CountCall(target, order, timing, clocks))
      ensures (Value(), out) == Step(old(Value()), CountCall(target, order, timing, clocks))
    {
      ghost var before := Value();
      var resources;
      ghost var counted;
      resources, order, counted := CountAndEmit(target, clocks.now);
      if resources == [] {
        StepPanics(before, counted, target, order, timing, clocks);
        return IndexPanic, order;
      }
      ghost var drained := Value();
      var durations := ObserveAndSweep(timing, clocks);
      StepReports(before, counted, drained, target, order, timing, clocks, Value(), durations);
      out := Emitted(resources[0 := resources[0] + durations]);
    }

    /** What a job event does: at most one step of the handler, on the target and the timing the event determines. */
    method WorkflowJobEventToMetrics(event: Option<JobEvent>, clocks: Clocks)
      returns (out: Outcome, ghost order: seq<Pair>)
      requires Valid()
      modifies Frame()
      ensures Valid() && fresh(Frame() - old(Frame()))
      ensures ValidCall(JobCall(event, order, clocks))
      ensures (Value(), out) == Step(old(Value()), JobCall(event, order, clocks))
    {
      if event.None? || event.value.repo.None? || event.value.job.None? || event.value.repo.value.fullName == "" {
        out := EmitBare();
        return out, [];
      }
      out, order := CountJob(event.value.action, event.value.repo.value, event.value.job.value, clocks);
    }

    method CountJob(action: string, repo: Repo, job: JobInfo, clocks: Clocks)
      returns (out: Outcome, ghost order: seq<Pair>)
      requires Valid()
      modifies Frame()
      ensures Valid() && fresh(Frame() - old(Frame()))
      ensures var call := CountCall(JobTarget(action, repo, job), order, JobTiming(action, repo, job), clocks);
              ValidCall(call) && (Value(), out) == Step(old(Value()), call)
    {
      ghost var before := Value();
      var target := ReadJobTarget(action, repo, job);
      var timing := ReadJobTiming(action, repo, job);
      JobTargetIsListed(action, repo, job);
      assert Value() == before;
      out, order := CountAndObserve(target, timing, clocks);
    }

    method WorkflowRunEventToMetrics(event: Option<RunEvent>, clocks: Clocks)
      returns (out: Outcome, ghost order: seq<Pair>)
      requires Valid()
      modifies Frame()
      ensures Valid() && fresh(Frame() - old(Frame()))
      ensures ValidCall(RunCall(event, order, clocks))
      ensures (Value(), out) == Step(old(Value()), RunCall(event, order, clocks))
    {
      if event.None? || event.value.repo.None? || event.value.run.None? || event.value.repo.value.fullName == "" {
        out := EmitBare();
        return out, [];
      }
      out, order := CountRun(event.value.action, event.value.repo.value, event.value.run.value, clocks);
    }

    method CountRun(action: string, repo: Repo, run: RunInfo, clocks: Clocks)
      returns (out: Outcome, ghost order: seq<Pair>)
      requires Valid()
      modifies Frame()
      ensures Valid() && fresh(Frame() - old(Frame()))
      ensures var call := CountCall(RunTarget(action, repo, run), order, RunTiming(action, repo, run), clocks);
              ValidCall(call) && (Value(), out) == Step(old(Value()), call)
    {
      ghost var before := Value();
      var target := ReadRunTarget(action, repo, run);
      var timing := ReadRunTiming(action, repo, run);
      RunTargetIsListed(action, repo, run);
      assert Value() == before;
      out, order := CountAndObserve(target, timing, clocks);
    }

    method CountAndEmit(target: Option<Target>, ts: int)
      returns (resources: seq<seq<Metric>>, ghost order: seq<Pair>, ghost counted: HandlerState)
      requires Valid() && (target.Some? ==> target.value.Pair() in PAIRS)
      modifies counters, mb
      ensures Valid() && (target.Some? ==> ValidHit(Hit(target.value, order)))
      ensures counted == CountEvent(old(Value()), target, order, ts)
      ensures resources == counted.buffers.Emission() && Value() == counted.(buffers := NO_POINTS)
    {
      order := CountTarget(target, ts);
      counted := Value();
      resources := mb.Emit();
      assert hists.Value() == counted.hists;
    }

    method CountTarget(target: Option<Target>, ts: int) returns (ghost order: seq<Pair>)
      requires Valid() && (target.Some? ==> target.value.Pair() in PAIRS)
      modifies counters, mb
      ensures Valid() && (target.Some? ==> ValidHit(Hit(target.value, order)))
      ensures Value() == CountEvent(old(Value()), target, order, ts)
    {
      if target.Some? {
        order := CountAccepted(target.value, ts);
        assert hists.Value() == old(hists.Value());
      } else {
        order := [];
      }
    }

    method ObserveAndSweep(timing: Option<Timing>, clocks: Clocks) returns (durations: seq<Metric>)
      requires Valid()
      modifies hists, hists.Frame()
      ensures Valid() && fresh(hists.Frame() - old(hists.Frame()))
      ensures (Value(), durations) == ObservedAndSwept(old(Value()), timing, clocks)
    {
      durations := AppendDuration(timing, clocks);
      ghost var observed := Value();
      hists.Sweep(clocks.sweptAt);
      assert Value() == SweepHandler(observed, clocks.sweptAt);
    }
  }

  lemma NothingSeeded(c0: CounterCache, b0: Buffers, config: Config, ts: int, t: Target)
    ensures SeededSoFar(c0, b0, c0, b0, config, ts, t, Without([], t.Pair()))
    ensures Recorded({RecordedKey(t.kind, t.Key())}, t, [])
  {
    assert KeysAlong(t.Group(), []) == [] && Zeros(t, []) == [];
    TargetKey(t);
  }

  lemma PairVisited(order: seq<Pair>, rows: set<Status>, s: Status, conclusions: set<Conclusion>, c: Conclusion)
    requires c in conclusions && conclusions <= CONCLUSIONS && s !in rows && NoDup(order)
    requires Elements(order) == Rows(rows) + RowOf(s, CONCLUSIONS - conclusions)
    ensures (s, c) !in order && NoDup(order + [(s, c)])
    ensures Elements(order + [(s, c)]) == Rows(rows) + RowOf(s, CONCLUSIONS - (conclusions - {c}))
  {
    assert (s, c) !in Elements(order);
    assert Elements(order + [(s, c)]) == Elements(order) + {(s, c)};
    assert CONCLUSIONS - (conclusions - {c}) == CONCLUSIONS - conclusions + {c};
  }

  lemma RowDone(rows: set<Status>, s: Status, statuses: set<Status>)
    requires s in statuses && statuses <= STATUSES && rows == STATUSES - statuses
    ensures Rows(rows) + RowOf(s, CONCLUSIONS - {}) == Rows(STATUSES - (statuses - {s}))
  {
    assert STATUSES - (statuses - {s}) == rows + {s};
    assert CONCLUSIONS - {} == CONCLUSIONS;
    assert Rows(rows + {s}) == Rows(rows) + RowOf(s, CONCLUSIONS);
  }

  /** What has been recorded: the target's own key and those of the pairs seen. */
  ghost predicate Recorded(recorded: set<string>, t: Target, order: seq<Pair>) {
    forall k :: k in recorded ==>
      exists p :: (p in order || p == t.Pair()) && k == RecordedKey(t.kind, KeyOf(t.Group(), p))
  }

  lemma NotYetRecorded(recorded: set<string>, t: Target, order: seq<Pair>, p: Pair)
    requires Recorded(recorded, t, order) && p !in order && p != t.Pair()
    ensures RecordedKey(t.kind, KeyOf(t.Group(), p)) !in recorded
    ensures Recorded(recorded + {RecordedKey(t.kind, KeyOf(t.Group(), p))}, t, order + [p])
  {
    var key := RecordedKey(t.kind, KeyOf(t.Group(), p));
    if key in recorded {
      var q :| (q in order || q == t.Pair()) && key == RecordedKey(t.kind, KeyOf(t.Group(), q));
      RecordedKeyInjective(t.kind, t.Group(), p, q);
    }
    forall k | k in recorded + {key}
      ensures exists q :: (q in order + [p] || q == t.Pair()) && k == RecordedKey(t.kind, KeyOf(t.Group(), q))
    {
      if k in recorded {
        var q :| (q in order || q == t.Pair()) && k == RecordedKey(t.kind, KeyOf(t.Group(), q));
        assert q in order + [p] || q == t.Pair();
      } else {
        assert p in order + [p];
      }
    }
  }

  /** The pairs of one status seen so far. */
  function RowOf(s: Status, cs: set<Conclusion>): set<Pair> {
    set c | c in cs :: (s, c)
  }
}
