// What the handler emits for one webhook event, field by field and in the event's own terms,
// after any run of calls.
module Emissions {
  import opened Basics
  import opened Telemetry
  import opened CacheKeys
  import opened Counters
  import opened CountEvents
  import opened Histograms
  import opened Labels
  import opened Events
  import opened Engine
  import opened MetricsHandler
  import opened Guarantees
  import Concurrency

  // ---- Counting points ----

  /** The fields that all points of an event have in common. */
  ghost predicate CommonFields(points: seq<Point>, start: int, ts: int, kind: Kind, repo: string, labels: string,
                               isMain: bool) {
    forall i :: 0 <= i < |points| ==>
      && points[i].start == start && points[i].ts == ts && points[i].attributes.CountAttributes?
      && points[i].attributes.kind == kind && points[i].attributes.repo == repo
      && points[i].attributes.labels == labels && points[i].attributes.isMain == isMain
  }

  /** The last point has the event's own status and conclusion, those before it are zeros. */
  ghost predicate LastIsOwn(points: seq<Point>, status: string, conclusion: string) {
    && points != []
    && points[|points| - 1].attributes.CountAttributes?
    && points[|points| - 1].attributes.status == status
    && points[|points| - 1].attributes.conclusion == conclusion
    && forall i :: 0 <= i < |points| - 1 ==> points[i].value == 0
  }

  /** One resource: a sum with points, and `durations` histograms after it. */
  ghost predicate HasSum(out: Outcome, kind: Kind, durations: nat) {
    && out.Emitted? && |out.resources| == 1 && |out.resources[0]| == 1 + durations
    && out.resources[0][0].CountSum? && out.resources[0][0].kind == kind
  }

  lemma PointsOfSamples(config: Config, ts: int, c: CounterCache, h: Hit)
    ensures var points, t := Points(config, ts, Samples(c, h)), h.target;
            && CommonFields(points, config.startTime, ts, t.kind, t.repo, t.labels, t.isMain)
            && LastIsOwn(points, t.status.Name(), t.conclusion.Name())
  {
  }

  /** A counting call that records a point, after any calls. */
  lemma CountReported(config: Config, calls: seq<Call>, call: Call, t: Target)
    requires Reports?(config, call) && call.target == Some(t)
    ensures var out := LastOutcome(config, calls + [call]);
            && HasSum(out, t.kind, if call.timing.Some? then 1 else 0)
            && CommonFields(out.resources[0][0].points, config.startTime, call.clocks.now, t.kind, t.repo, t.labels,
                            t.isMain)
            && LastIsOwn(out.resources[0][0].points, t.status.Name(), t.conclusion.Name())
  {
    CountOutcome(config, calls, call);
    PointsOfSamples(config, call.clocks.now, CacheAfter(Contacts(Hits(calls))), Hit(t, call.order));
  }

  /** The conclusion that is printed. */
  ghost function KnownOrNull(conclusion: string): string {
    if conclusion in {"success", "failure", "cancelled", "neutral", "null", "skipped", "timed_out", "action_required"}
    then conclusion else "null"
  }

  /** What a job event with a known action is counted under. */
  lemma JobCounted(action: string, repo: Repo, job: JobInfo) returns (t: Target)
    requires action in {"completed", "in_progress", "queued", "waiting", "aborted"}
    ensures JobTarget(action, repo, job) == Some(t) && t.Pair() in PAIRS
    ensures t.kind == Job && t.repo == repo.fullName && t.labels == LabelString(job.labels)
    ensures t.isMain <==> repo.defaultBranch == Some(job.headBranch)
    ensures t.status.Name()
            == if action == "completed" && job.conclusion == "cancelled" && job.steps == 1 then "aborted" else action
    ensures t.conclusion.Name() == KnownOrNull(job.conclusion)
  {
    JobTargetIsListed(action, repo, job);
    TablesSpelledOut(action);
    StatusTableComplete(Completed, action);
    TablesSpelledOut(job.conclusion);
    ConclusionTableComplete(Cancelled, job.conclusion);
    t := JobTarget(action, repo, job).value;
  }

  lemma RunCounted(action: string, repo: Repo, run: RunInfo) returns (t: Target)
    requires action in {"completed", "in_progress", "queued", "waiting", "aborted"}
    ensures RunTarget(action, repo, run) == Some(t) && t.Pair() in PAIRS
    ensures t.kind == Run && t.repo == repo.fullName && t.labels == "default"
    ensures t.isMain <==> repo.defaultBranch == Some(run.headBranch)
    ensures t.status.Name() == action && t.conclusion.Name() == KnownOrNull(run.conclusion)
  {
    RunTargetIsListed(action, repo, run);
    TablesSpelledOut(action);
    StatusTableComplete(Completed, action);
    TablesSpelledOut(run.conclusion);
    ConclusionTableComplete(Cancelled, run.conclusion);
    t := RunTarget(action, repo, run).value;
  }

  /**
   * What a job event with a known action emits while the sum of jobs is enabled: points of its repository, labels and
   * branch, stamped with the clock reading of the call; zeros, and last its own status and conclusion; and a histogram
   * if and only if the job is completed and has both times.
   */
  lemma JobEventReports(config: Config, calls: seq<Call>, action: string, repo: Repo, job: JobInfo, order: seq<Pair>,
                        clocks: Clocks)
    requires config.jobsEnabled && repo.fullName != ""
    requires action in {"completed", "in_progress", "queued", "waiting", "aborted"}
    ensures var call := JobCall(Some(JobEvent(action, Some(repo), Some(job))), order, clocks);
            var out := LastOutcome(config, calls + [call]);
            && HasSum(out, Job,
                      if action == "completed" && job.startedAt.Some? && job.completedAt.Some? then 1 else 0)
            && CommonFields(out.resources[0][0].points, config.startTime, clocks.now, Job, repo.fullName,
                            LabelString(job.labels), repo.defaultBranch == Some(job.headBranch))
            && LastIsOwn(out.resources[0][0].points,
                         if action == "completed" && job.conclusion == "cancelled" && job.steps == 1 then "aborted"
                         else action,
                         KnownOrNull(job.conclusion))
  {
    var t := JobCounted(action, repo, job);
    CountReported(config, calls, JobCall(Some(JobEvent(action, Some(repo), Some(job))), order, clocks), t);
  }

  /** The same for runs, whose label is "default" and which are never aborted. */
  lemma RunEventReports(config: Config, calls: seq<Call>, action: string, repo: Repo, run: RunInfo, order: seq<Pair>,
                        clocks: Clocks)
    requires config.runsEnabled && repo.fullName != ""
    requires action in {"completed", "in_progress", "queued", "waiting", "aborted"}
    ensures var call := RunCall(Some(RunEvent(action, Some(repo), Some(run))), order, clocks);
            var out := LastOutcome(config, calls + [call]);
            && HasSum(out, Run,
                      if action == "completed" && run.runStartedAt.Some? && run.updatedAt.Some? then 1 else 0)
            && CommonFields(out.resources[0][0].points, config.startTime, clocks.now, Run, repo.fullName, "default",
                            repo.defaultBranch == Some(run.headBranch))
            && LastIsOwn(out.resources[0][0].points, action, KnownOrNull(run.conclusion))
  {
    var t := RunCounted(action, repo, run);
    CountReported(config, calls, RunCall(Some(RunEvent(action, Some(repo), Some(run))), order, clocks), t);
  }

  /** Without a repository, a name for it or a payload the event changes nothing and emits nothing. */
  lemma UnreadableEventIsIgnored(config: Config, calls: seq<Call>, event: Option<JobEvent>, order: seq<Pair>,
                                 clocks: Clocks)
    requires || event == None || event.value.repo == None || event.value.job == None
             || event.value.repo.value.fullName == ""
    ensures var call := JobCall(event, order, clocks);
            && LastOutcome(config, calls + [call]) == Emitted([])
            && HandlerAfter(config, calls + [call]) == HandlerAfter(config, calls)
  {
    IgnoredCall(config, calls);
  }

  lemma UnreadableRunEventIsIgnored(config: Config, calls: seq<Call>, event: Option<RunEvent>, order: seq<Pair>,
                                    clocks: Clocks)
    requires || event == None || event.value.repo == None || event.value.run == None
             || event.value.repo.value.fullName == ""
    ensures var call := RunCall(event, order, clocks);
            && LastOutcome(config, calls + [call]) == Emitted([])
            && HandlerAfter(config, calls + [call]) == HandlerAfter(config, calls)
  {
    IgnoredCall(config, calls);
  }

  lemma IgnoredCall(config: Config, calls: seq<Call>)
    ensures LastOutcome(config, calls + [BareCall]) == Emitted([])
    ensures HandlerAfter(config, calls + [BareCall]) == HandlerAfter(config, calls)
  {
    BuffersDrained(config, calls);
    HandlerSnoc(config, calls, BareCall);
  }

  /** The build information: one gauge with one point of value 1, if it is enabled. */
  lemma BuildInfoReports(config: Config, calls: seq<Call>, now: int, version: string)
    ensures var out := LastOutcome(config, calls + [BuildInfoCall(now, version)]);
            && out.Emitted?
            && (!config.buildInfoEnabled ==> out.resources == [])
            && (config.buildInfoEnabled ==>
                  && |out.resources| == 1 && |out.resources[0]| == 1
                  && out.resources[0][0].BuildInfoGauge? && |out.resources[0][0].points| == 1
                  && var point := out.resources[0][0].points[0];
                     && point.start == config.startTime && point.ts == now && point.value == 1
                     && point.attributes.BuildInfoAttributes? && point.attributes.version == version)
  {
    Concurrency.SequentialAnswer(config, calls, BuildInfoCall(now, version));
  }

  /** What is counted: one event under its own target if the action is known, whether or not the sum is enabled. */
  lemma JobEventCounts(calls: seq<Call>, action: string, repo: Repo, job: JobInfo, order: seq<Pair>, clocks: Clocks)
    requires repo.fullName != ""
    ensures var call := JobCall(Some(JobEvent(action, Some(repo), Some(job))), order, clocks);
            var hits := Hits(calls + [call]);
            if action !in {"completed", "in_progress", "queued", "waiting", "aborted"} then hits == Hits(calls)
            else
              && |hits| == |Hits(calls)| + 1 && hits[..|Hits(calls)|] == Hits(calls)
              && var t := hits[|Hits(calls)|].target;
                 && t.kind == Job && t.repo == repo.fullName && t.labels == LabelString(job.labels)
                 && (t.isMain <==> repo.defaultBranch == Some(job.headBranch))
                 && t.status.Name() == (if action == "completed" && job.conclusion == "cancelled" && job.steps == 1
                                        then "aborted" else action)
                 && t.conclusion.Name() == KnownOrNull(job.conclusion)
  {
    var call := JobCall(Some(JobEvent(action, Some(repo), Some(job))), order, clocks);
    assert (calls + [call])[..|calls|] == calls;
    TablesSpelledOut(action);
    if action in STATUS_BY_NAME {
      var t := JobCounted(action, repo, job);
    }
  }

  lemma RunEventCounts(calls: seq<Call>, action: string, repo: Repo, run: RunInfo, order: seq<Pair>, clocks: Clocks)
    requires repo.fullName != ""
    ensures var call := RunCall(Some(RunEvent(action, Some(repo), Some(run))), order, clocks);
            var hits := Hits(calls + [call]);
            if action !in {"completed", "in_progress", "queued", "waiting", "aborted"} then hits == Hits(calls)
            else
              && |hits| == |Hits(calls)| + 1 && hits[..|Hits(calls)|] == Hits(calls)
              && var t := hits[|Hits(calls)|].target;
                 && t.kind == Run && t.repo == repo.fullName && t.labels == "default"
                 && (t.isMain <==> repo.defaultBranch == Some(run.headBranch))
                 && t.status.Name() == action && t.conclusion.Name() == KnownOrNull(run.conclusion)
  {
    var call := RunCall(Some(RunEvent(action, Some(repo), Some(run))), order, clocks);
    assert (calls + [call])[..|calls|] == calls;
    TablesSpelledOut(action);
    if action in STATUS_BY_NAME {
      var t := RunCounted(action, repo, run);
    }
  }

  // ---- The first contact with a group ----

  /** No two points have the same attributes. */
  ghost predicate DistinctAttributes(points: seq<Point>) {
    forall i, j :: 0 <= i < j < |points| ==> points[i].attributes != points[j].attributes
  }

  lemma SamplesApart(samples: seq<Sample>, points: seq<Point>, t: Target)
    requires |points| == |samples|
    requires forall i :: 0 <= i < |samples| ==>
               && samples[i].target.Pair() in PAIRS && samples[i].target == t.Sibling(samples[i].target.Pair())
               && points[i].attributes == AttributesOf(samples[i].target)
    requires forall i, j :: 0 <= i < j < |samples| ==> samples[i].target.Pair() != samples[j].target.Pair()
    ensures DistinctAttributes(points)
  {
    forall i, j | 0 <= i < j < |points|
      ensures points[i].attributes != points[j].attributes
    {
      AttributesNameTargets(samples[i].target, samples[j].target);
    }
  }

  /** The samples of a first contact: 39 zeros and a one, one for each pair. */
  lemma FirstSamples(c: CounterCache, h: Hit) returns (samples: seq<Sample>)
    requires ValidHit(h) && h.target.Key() !in c.items
    ensures samples == Samples(c, h) && |samples| == 40 && samples[39].value == 1
    ensures forall i :: 0 <= i < 40 ==>
              samples[i].target.Pair() in PAIRS && samples[i].target == h.target.Sibling(samples[i].target.Pair())
    ensures forall i, j :: 0 <= i < j < 40 ==> samples[i].target.Pair() != samples[j].target.Pair()
  {
    ContactOfValid(h);
    WithoutProps(h.order, h.target.Pair());
    samples := Samples(c, h);
    var siblings := Siblings(h);
    forall i | 0 <= i < 39
      ensures siblings[i] in PAIRS && siblings[i] != h.target.Pair()
    {
      assert siblings[i] in Elements(siblings);
    }
  }

  /** An event of a group that has had none reports all 40 pairs of the tables, each once: 39 zeros and its own 1. */
  lemma FirstContactEmission(config: Config, calls: seq<Call>, call: Call)
    requires Reports?(config, call) && ValidCalls(calls) && ValidCall(call)
    requires |Groups(Contacts(Hits(calls)))| <= 2500
    requires call.target.value.Group() !in Groups(Contacts(Hits(calls)))
    ensures var out := LastOutcome(config, calls + [call]);
            && HasSum(out, call.target.value.kind, if call.timing.Some? then 1 else 0)
            && |out.resources[0][0].points| == 40 && out.resources[0][0].points[39].value == 1
            && (forall i :: 0 <= i < 39 ==> out.resources[0][0].points[i].value == 0)
            && DistinctAttributes(out.resources[0][0].points)
  {
    var t, run := call.target.value, Contacts(Hits(calls));
    var h := Hit(t, call.order);
    NotCached(calls, t);
    var samples := FirstSamples(CacheAfter(run), h);
    CountReported(config, calls, call, t);
    CountOutcome(config, calls, call);
    SamplesApart(samples, Points(config, call.clocks.now, samples), t);
  }

  lemma NotCached(calls: seq<Call>, t: Target)
    requires ValidCalls(calls) && |Groups(Contacts(Hits(calls)))| <= 2500
    requires t.Pair() in PAIRS && t.Group() !in Groups(Contacts(Hits(calls)))
    ensures t.Key() !in CacheAfter(Contacts(Hits(calls))).items
  {
    HitsValid(calls);
    ContactsProps(Hits(calls));
    RunExact(Contacts(Hits(calls)));
    TargetKey(t);
    NotTouched(Groups(Contacts(Hits(calls))), t.Group(), t.Pair());
  }

  lemma NotTouched(groups: set<Group>, g: Group, p: Pair)
    requires g !in groups && p in PAIRS
    ensures KeyOf(g, p) !in KeysOf(groups)
  {
    forall h, q | h in groups && q in PAIRS
      ensures KeyOf(h, q) != KeyOf(g, p)
    {
      if KeyOf(h, q) == KeyOf(g, p) {
        KeyOfInjective(h, q, g, p);
      }
    }
  }

  // ---- Durations ----

  /** The conditions under which a series is reported in full: it is alone, active, and the cache is not crowded. */
  ghost predicate ReportedInFull(config: Config, calls: seq<Call>, series: DurationSeries) {
    && Alone(config, calls, series) && NeverIdle(SeriesDurations(config, calls, series))
    && ClockOrdered(Ops(config, calls)) && NeverCrowded(Ops(config, calls))
  }

  /**
   * The histogram of a completed job: its attributes are the event's, and it describes all durations of the series, of
   * which the last is the time from the job's start to its completion.
   */
  lemma JobDurationReports(config: Config, calls: seq<Call>, repo: Repo, job: JobInfo, order: seq<Pair>, clocks: Clocks,
                           series: DurationSeries, all: seq<Observation>)
    requires config.jobsEnabled && repo.fullName != "" && job.startedAt.Some? && job.completedAt.Some?
    requires series == JobDuration(repo.fullName, job.workflowName, job.name, LabelString(job.labels), job.conclusion,
                                   repo.defaultBranch == Some(job.headBranch))
    requires var call := JobCall(Some(JobEvent("completed", Some(repo), Some(job))), order, clocks);
             && ReportedInFull(config, calls + [call], series)
             && all == SeriesDurations(config, calls + [call], series)
    ensures all != [] && Measures(all[|all| - 1].duration, job.startedAt.value, job.completedAt.value)
    ensures var call := JobCall(Some(JobEvent("completed", Some(repo), Some(job))), order, clocks);
            ReportsDurations(LastOutcome(config, calls + [call]), series, clocks.reportedAt, all)
  {
    var t := JobCounted("completed", repo, job);
    var event := Some(JobEvent("completed", Some(repo), Some(job)));
    EmittedHistogramIsHistory(config, calls, JobCall(event, order, clocks));
  }

  /** The histogram of a completed run, from its start to its last update. */
  lemma RunDurationReports(config: Config, calls: seq<Call>, repo: Repo, run: RunInfo, order: seq<Pair>, clocks: Clocks,
                           series: DurationSeries, all: seq<Observation>)
    requires config.runsEnabled && repo.fullName != "" && run.runStartedAt.Some? && run.updatedAt.Some?
    requires series == RunDuration(repo.fullName, run.name, run.conclusion, repo.defaultBranch == Some(run.headBranch))
    requires var call := RunCall(Some(RunEvent("completed", Some(repo), Some(run))), order, clocks);
             && ReportedInFull(config, calls + [call], series)
             && all == SeriesDurations(config, calls + [call], series)
    ensures all != [] && Measures(all[|all| - 1].duration, run.runStartedAt.value, run.updatedAt.value)
    ensures var call := RunCall(Some(RunEvent("completed", Some(repo), Some(run))), order, clocks);
            ReportsDurations(LastOutcome(config, calls + [call]), series, clocks.reportedAt, all)
  {
    var t := RunCounted("completed", repo, run);
    var event := Some(RunEvent("completed", Some(repo), Some(run)));
    EmittedHistogramIsHistory(config, calls, RunCall(event, order, clocks));
  }
}
