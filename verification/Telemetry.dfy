// What the GitHub Actions receiver counts and emits: the generated status and
// conclusion enumerations, the points and metrics, and the builder that buffers
// points between Record... and Emit.
//
// The generated code declares the status enumeration once for jobs and once for runs,
// with the same values and the same strings, and likewise the conclusions; the model
// keeps one of each.
module Telemetry {
  import opened Basics

  // ---- Enumerations ----

  datatype Status = StatusUnset | Completed | InProgress | Queued | Waiting | Aborted {
    function Name(): string {
      match this
      case Completed => "completed"
      case InProgress => "in_progress"
      case Queued => "queued"
      case Waiting => "waiting"
      case Aborted => "aborted"
      case StatusUnset => ""
    }
  }

  datatype Conclusion =
    ConclusionUnset | Success | Failure | Cancelled | Neutral | Null | Skipped | TimedOut | ActionRequired
  {
    function Name(): string {
      match this
      case Success => "success"
      case Failure => "failure"
      case Cancelled => "cancelled"
      case Neutral => "neutral"
      case Null => "null"
      case Skipped => "skipped"
      case TimedOut => "timed_out"
      case ActionRequired => "action_required"
      case ConclusionUnset => ""
    }
  }

  const STATUS_BY_NAME: map<string, Status> :=
    map["completed" := Completed, "in_progress" := InProgress, "queued" := Queued,
        "waiting" := Waiting, "aborted" := Aborted]

  const CONCLUSION_BY_NAME: map<string, Conclusion> :=
    map["success" := Success, "failure" := Failure, "cancelled" := Cancelled, "neutral" := Neutral,
        "null" := Null, "skipped" := Skipped, "timed_out" := TimedOut, "action_required" := ActionRequired]

  /** The statuses and conclusions the lookup tables range over. */
  const STATUSES: set<Status> := {Completed, InProgress, Queued, Waiting, Aborted}
  const CONCLUSIONS: set<Conclusion> :=
    {Success, Failure, Cancelled, Neutral, Null, Skipped, TimedOut, ActionRequired}

  /** Looking a name up and printing it are inverse: the tables list every value but the unset one, once. */
  lemma StatusTableComplete(s: Status, name: string)
    ensures s in STATUSES <==> s.Name() in STATUS_BY_NAME
    ensures s in STATUSES ==> STATUS_BY_NAME[s.Name()] == s
    ensures name in STATUS_BY_NAME ==> STATUS_BY_NAME[name] in STATUSES && STATUS_BY_NAME[name].Name() == name
  {
  }

  lemma ConclusionTableComplete(c: Conclusion, name: string)
    ensures c in CONCLUSIONS <==> c.Name() in CONCLUSION_BY_NAME
    ensures c in CONCLUSIONS ==> CONCLUSION_BY_NAME[c.Name()] == c
    ensures name in CONCLUSION_BY_NAME ==>
              CONCLUSION_BY_NAME[name] in CONCLUSIONS && CONCLUSION_BY_NAME[name].Name() == name
  {
  }

  /** The names the tables know. */
  lemma TablesSpelledOut(name: string)
    ensures name in STATUS_BY_NAME <==> name in {"completed", "in_progress", "queued", "waiting", "aborted"}
    ensures name in CONCLUSION_BY_NAME <==>
              name in {"success", "failure", "cancelled", "neutral", "null", "skipped", "timed_out", "action_required"}
  {
  }

  function BoolName(b: bool): string {
    if b then "true" else "false"
  }

  // ---- Points and metrics ----

  datatype Kind = Job | Run

  datatype Attributes =
    | BuildInfoAttributes(version: string)
    | CountAttributes(kind: Kind, repo: string, labels: string, status: string, conclusion: string, isMain: bool)

  datatype Point = Point(start: int, ts: int, value: int, attributes: Attributes)

  /** The identity of a duration histogram: the attributes of its points. */
  datatype DurationSeries =
    | JobDuration(repo: string, workflow: string, job: string, labels: string, conclusion: string, isMain: bool)
    | RunDuration(repo: string, workflow: string, conclusion: string, isMain: bool)

  datatype HistogramPoint =
    HistogramPoint(ts: int, count: nat, sum: real, bounds: seq<real>, buckets: seq<nat>, series: DurationSeries)

  datatype Metric =
    | BuildInfoGauge(points: seq<Point>)
    | CountSum(kind: Kind, points: seq<Point>)
    | DurationHistogram(point: HistogramPoint)

  // ---- The metrics builder ----

  datatype Config = Config(startTime: int, buildInfoEnabled: bool, jobsEnabled: bool, runsEnabled: bool) {
    predicate Enabled(kind: Kind) {
      match kind
      case Job => jobsEnabled
      case Run => runsEnabled
    }
  }

  /** The points recorded since the last emission. */
  datatype Buffers = Buffers(info: seq<Point>, jobs: seq<Point>, runs: seq<Point>) {

    function RecordCount(config: Config, ts: int, value: int, kind: Kind, repo: string, labels: string,
                         status: Status, conclusion: Conclusion, isMain: bool): Buffers {
      var point := Point(config.startTime, ts, value,
                         CountAttributes(kind, repo, labels, status.Name(), conclusion.Name(), isMain));
      if !config.Enabled(kind) then this
      else if kind.Job? then this.(jobs := jobs + [point])
      else this.(runs := runs + [point])
    }

    function RecordBuildInfo(config: Config, ts: int, value: int, version: string): Buffers {
      if !config.buildInfoEnabled then this
      else this.(info := info + [Point(config.startTime, ts, value, BuildInfoAttributes(version))])
    }

    /** The metrics an emission moves out of the buffers, in the builder's order. */
    function Metrics(): seq<Metric> {
      (if info == [] then [] else [BuildInfoGauge(info)])
      + (if jobs == [] then [] else [CountSum(Job, jobs)])
      + (if runs == [] then [] else [CountSum(Run, runs)])
    }

    /** An emission without a single metric carries no resource at all. */
    function Emission(): seq<seq<Metric>> {
      if Metrics() == [] then [] else [Metrics()]
    }
  }

  /** Whatever is buffered leaves in one resource: build information, then jobs, then runs. */
  lemma EmissionInOrder(b: Buffers)
    requires b.info != [] && b.jobs != [] && b.runs != []
    ensures b.Emission() == [[BuildInfoGauge(b.info), CountSum(Job, b.jobs), CountSum(Run, b.runs)]]
  {
    var three := [BuildInfoGauge(b.info), CountSum(Job, b.jobs), CountSum(Run, b.runs)];
    assert b.Metrics() == three;
  }

  const NO_POINTS: Buffers := Buffers([], [], [])

  class MetricsBuilder {
    const config: Config
    var info: seq<Point>
    var jobs: seq<Point>
    var runs: seq<Point>

    ghost function Value(): Buffers
      reads this
    {
      Buffers(info, jobs, runs)
    }

    constructor (config: Config)
      ensures this.config == config && Value() == NO_POINTS
    {
      this.config := config;
      info, jobs, runs := [], [], [];
    }

    method RecordBuildInfoDataPoint(ts: int, value: int, version: string)
      modifies this
      ensures Value() == old(Value()).RecordBuildInfo(config, ts, value, version)
    {
      if config.buildInfoEnabled {
        info := info + [Point(config.startTime, ts, value, BuildInfoAttributes(version))];
      }
    }

    method RecordCountDataPoint(ts: int, value: int, kind: Kind, repo: string, labels: string,
                                status: Status, conclusion: Conclusion, isMain: bool)
      modifies this
      ensures Value() == old(Value()).RecordCount(config, ts, value, kind, repo, labels, status, conclusion, isMain)
    {
      if !config.Enabled(kind) {
        return;
      }
      var point := Point(config.startTime, ts, value,
                         CountAttributes(kind, repo, labels, status.Name(), conclusion.Name(), isMain));
      match kind
      case Job => jobs := jobs + [point];
      case Run => runs := runs + [point];
    }

    /** Hands over everything recorded and starts afresh. */
    method Emit() returns (resources: seq<seq<Metric>>)
      modifies this
      ensures resources == old(Value()).Emission()
      ensures Value() == NO_POINTS
    {
      var metrics: seq<Metric> := [];
      if info != [] {
        metrics := metrics + [BuildInfoGauge(info)];
        info := [];
      }
      if jobs != [] {
        metrics := metrics + [CountSum(Job, jobs)];
        jobs := [];
      }
      if runs != [] {
        metrics := metrics + [CountSum(Run, runs)];
        runs := [];
      }
      assert metrics == old(Value()).Metrics();
      resources := if metrics == [] then [] else [metrics];
    }
  }
}
