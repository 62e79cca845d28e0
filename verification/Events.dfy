// Decoded GitHub webhook events, and what the metrics handler reads off them.
module Events {
  import opened Basics
  import opened Telemetry
  import opened CacheKeys
  import opened Counters
  import opened CountEvents
  import opened Histograms
  import opened Labels

  datatype Repo = Repo(fullName: string, defaultBranch: Option<string>)

  /** A time is None when it is the zero time. Steps are only counted. */
  datatype JobInfo = JobInfo(name: string, workflowName: string, labels: seq<string>, conclusion: string,
                             headBranch: string, steps: nat, startedAt: Option<int>, completedAt: Option<int>)

  datatype RunInfo = RunInfo(name: string, conclusion: string, headBranch: string,
                             runStartedAt: Option<int>, updatedAt: Option<int>)

  datatype JobEvent = JobEvent(action: string, repo: Option<Repo>, job: Option<JobInfo>)

  datatype RunEvent = RunEvent(action: string, repo: Option<Repo>, run: Option<RunInfo>)

  function LookupStatus(action: string): Option<Status> {
    if action in STATUS_BY_NAME then Some(STATUS_BY_NAME[action]) else None
  }

  function LookupConclusion(name: string): Option<Conclusion> {
    if name in CONCLUSION_BY_NAME then Some(CONCLUSION_BY_NAME[name]) else None
  }

  predicate OnDefaultBranch(repo: Repo, headBranch: string) {
    repo.defaultBranch.Some? && headBranch == repo.defaultBranch.value
  }

  /** A cancelled job that never got past its first step counts as aborted. */
  function JobStatus(action: string, conclusion: string, steps: nat): Option<Status> {
    var status := LookupStatus(action);
    if status == Some(Completed) && LookupConclusion(conclusion) == Some(Cancelled) && steps == 1 then Some(Aborted)
    else status
  }

  /** Anything that is not a known conclusion, such as that of an unfinished job, counts as null. */
  function KnownConclusion(name: string): Conclusion {
    match LookupConclusion(name)
    case None => Null
    case Some(c) => c
  }

  /** The counter a job event increments; none if its action is not a known status. */
  function JobTarget(action: string, repo: Repo, job: JobInfo): Option<Target> {
    match JobStatus(action, job.conclusion, job.steps)
    case None => None
    case Some(status) =>
      Some(Target(Job, repo.fullName, LabelString(job.labels), status, KnownConclusion(job.conclusion),
                  OnDefaultBranch(repo, job.headBranch)))
  }

  const RUN_LABELS: string := "default"

  function RunTarget(action: string, repo: Repo, run: RunInfo): Option<Target> {
    match LookupStatus(action)
    case None => None
    case Some(status) =>
      Some(Target(Run, repo.fullName, RUN_LABELS, status, KnownConclusion(run.conclusion),
                  OnDefaultBranch(repo, run.headBranch)))
  }

  /** Every target counts one of the 40 pairs of the tables. */
  lemma JobTargetIsListed(action: string, repo: Repo, job: JobInfo)
    ensures JobTarget(action, repo, job).Some? ==> JobTarget(action, repo, job).value.Pair() in PAIRS
  {
    StatusTableComplete(Completed, action);
    ConclusionTableComplete(Null, job.conclusion);
  }

  lemma RunTargetIsListed(action: string, repo: Repo, run: RunInfo)
    ensures RunTarget(action, repo, run).Some? ==> RunTarget(action, repo, run).value.Pair() in PAIRS
  {
    StatusTableComplete(Completed, action);
    ConclusionTableComplete(Null, run.conclusion);
  }

  /** A measured duration and the series it belongs to. */
  datatype Timing = Timing(series: DurationSeries, seconds: real)

  function Seconds(from: int, to: int): real {
    Sub(to, from) as real / 1_000_000_000.0
  }

  function JobTiming(action: string, repo: Repo, job: JobInfo): Option<Timing> {
    if action != "completed" || job.startedAt.None? || job.completedAt.None? then None
    else
      Some(Timing(JobDuration(repo.fullName, job.workflowName, job.name, LabelString(job.labels), job.conclusion,
                              OnDefaultBranch(repo, job.headBranch)),
                  Seconds(job.startedAt.value, job.completedAt.value)))
  }

  function RunTiming(action: string, repo: Repo, run: RunInfo): Option<Timing> {
    if action != "completed" || run.runStartedAt.None? || run.updatedAt.None? then None
    else
      Some(Timing(RunDuration(repo.fullName, run.name, run.conclusion, OnDefaultBranch(repo, run.headBranch)),
                  Seconds(run.runStartedAt.value, run.updatedAt.value)))
  }
}
