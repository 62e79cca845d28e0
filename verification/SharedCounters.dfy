// Jobs and runs share one counter cache whose keys do not say which of the two they count.
// Runs are labelled "default"; these are the jobs that count under a run's key.
module SharedCounters {
  import opened Basics
  import opened Text
  import opened Telemetry
  import opened CacheKeys
  import opened Counters
  import opened CounterLimits
  import opened CountEvents
  import opened Labels
  import opened Events
  import opened Engine
  import opened MetricsHandler

  lemma JoinHasSeparator(parts: seq<string>, c: char)
    requires |parts| > 1
    ensures c in Join(parts, c)
  {
    assert Join(parts, c) == parts[0] + [c] + Join(parts[1..], c);
    assert Join(parts, c)[|parts[0]|] == c;
  }

  /** A job's labels read "default" exactly when that is its only label, in whatever case. */
  lemma ReadsDefault(labels: seq<string>)
    ensures LabelString(labels) == RUN_LABELS <==> |labels| == 1 && Lower(labels[0]) == RUN_LABELS
  {
    if |labels| == 1 {
      assert LowerAll(labels) == [Lower(labels[0])];
      SortOne(Lower(labels[0]));
    } else if |labels| > 1 {
      SortProps(LowerAll(labels));
      JoinHasSeparator(Sort(LowerAll(labels)), ',');
      assert ',' !in RUN_LABELS;
    }
  }

  /** Some run event of a repository without a colon in its name counts under the target's key. */
  ghost predicate SharesRunKey(t: Target) {
    exists action: string, repo: Repo, run: RunInfo ::
      && ':' !in repo.fullName
      && RunTarget(action, repo, run).Some? && RunTarget(action, repo, run).value.Key() == t.Key()
  }

  /** An event of a run that counts the same status, conclusion and branch. */
  lemma RunLike(t: Target) returns (action: string, repo: Repo, run: RunInfo)
    requires t.Pair() in PAIRS
    ensures repo.fullName == t.repo
    ensures RunTarget(action, repo, run) == Some(t.(kind := Run, labels := RUN_LABELS))
  {
    StatusTableComplete(t.status, "");
    ConclusionTableComplete(t.conclusion, "");
    action := t.status.Name();
    repo := Repo(t.repo, if t.isMain then Some("main") else None);
    run := RunInfo("", t.conclusion.Name(), "main", None, None);
  }

  /** In colon-free repositories a job counts under some run's key if and only if "default" is its only label. */
  lemma JobSharesRunKeyIff(action: string, repo: Repo, job: JobInfo)
    requires ':' !in repo.fullName && JobTarget(action, repo, job).Some?
    ensures SharesRunKey(JobTarget(action, repo, job).value)
            <==> |job.labels| == 1 && Lower(job.labels[0]) == RUN_LABELS
  {
    var t := JobTarget(action, repo, job).value;
    ReadsDefault(job.labels);
    if SharesRunKey(t) {
      var action': string, repo': Repo, run: RunInfo :|
        && ':' !in repo'.fullName
        && RunTarget(action', repo', run).Some? && RunTarget(action', repo', run).value.Key() == t.Key();
      var u := RunTarget(action', repo', run).value;
      CacheKeyInjective(t.repo, t.labels, t.status, t.conclusion, t.isMain,
                        u.repo, u.labels, u.status, u.conclusion, u.isMain);
    }
    if t.labels == RUN_LABELS {
      JobTargetIsListed(action, repo, job);
      var action', repo', run := RunLike(t);
      assert RunTarget(action', repo', run).value.Key() == t.Key();
    }
  }

  /** After one event of one kind the first event of the other kind under the same key reports 2, and seeds nothing. */
  lemma SecondUnderKey(h: Hit, u: Hit)
    requires ValidHit(h) && u.target.Key() == h.target.Key()
    ensures Samples(CacheAfter(Contacts([h])), u) == [Sample(u.target, 2)]
  {
    var e := ContactOf(h);
    assert [h][..0] == [];
    assert Contacts([h]) == [e];
    ContactOfValid(h);
    OneGroup(e);
    RunExact([e]);
    CountsOne(e);
    TouchedKeys([e], e);
  }

  /**
   * A completed job with the one label "default" followed by the completed run of the same branch: the run's first
   * point reports 2, and the 39 zeros of a first contact are missing.
   */
  lemma JobAndRunAddUp(config: Config, repo: Repo, job: JobInfo, run: RunInfo, order: seq<Pair>, clocks: Clocks,
                       order': seq<Pair>, clocks': Clocks)
    requires config.runsEnabled && repo.fullName != "" && IsIterationOrder(order)
    requires |job.labels| == 1 && Lower(job.labels[0]) == RUN_LABELS
    requires job.conclusion == run.conclusion == "success" && job.headBranch == run.headBranch
    ensures var jobCall := JobCall(Some(JobEvent("completed", Some(repo), Some(job))), order, clocks);
            var runCall := RunCall(Some(RunEvent("completed", Some(repo), Some(run))), order', clocks');
            CountsInOutcome(LastOutcome(config, [jobCall] + [runCall]))
            == [(CountAttributes(Run, repo.fullName, RUN_LABELS, "completed", "success",
                                 OnDefaultBranch(repo, run.headBranch)), 2)]
  {
    var jobCall := JobCall(Some(JobEvent("completed", Some(repo), Some(job))), order, clocks);
    var runCall := RunCall(Some(RunEvent("completed", Some(repo), Some(run))), order', clocks');
    var u := BothCompleted(repo, job, run);
    RunAfterJob(config, jobCall, runCall, u.(kind := Job), u);
  }

  /** The counters of the two events: the same but for the kind. */
  lemma BothCompleted(repo: Repo, job: JobInfo, run: RunInfo) returns (u: Target)
    requires |job.labels| == 1 && Lower(job.labels[0]) == RUN_LABELS
    requires job.conclusion == run.conclusion == "success" && job.headBranch == run.headBranch
    ensures u == Target(Run, repo.fullName, RUN_LABELS, Completed, Success, OnDefaultBranch(repo, run.headBranch))
    ensures RunTarget("completed", repo, run) == Some(u)
    ensures JobTarget("completed", repo, job) == Some(u.(kind := Job)) && u.Pair() in PAIRS
  {
    ReadsDefault(job.labels);
    JobTargetIsListed("completed", repo, job);
    u := RunTarget("completed", repo, run).value;
  }

  lemma RunAfterJob(config: Config, jobCall: Call, runCall: Call, t: Target, u: Target)
    requires jobCall.CountCall? && jobCall.target == Some(t) && ValidHit(Hit(t, jobCall.order))
    requires runCall.CountCall? && runCall.target == Some(u) && config.Enabled(u.kind)
    requires u.Key() == t.Key()
    ensures CountsInOutcome(LastOutcome(config, [jobCall] + [runCall])) == [CountFor(Sample(u, 2))]
  {
    OneCall(jobCall, Hit(t, jobCall.order));
    SecondUnderKey(Hit(t, jobCall.order), Hit(u, runCall.order));
    CountsOfCall(config, [jobCall], runCall);
    assert CountsFor([Sample(u, 2)]) == [CountFor(Sample(u, 2))];
  }

  lemma OneCall(call: Call, h: Hit)
    requires HitsOf(call) == [h]
    ensures Hits([call]) == [h]
  {
    assert [call][..0] == [];
  }
}
