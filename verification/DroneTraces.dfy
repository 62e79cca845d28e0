// From a Drone webhook event to the trace of the build: one span for the build, one for every
// stage, one for every step that was not skipped, and the log of each step that has one.
module DroneTraces {
  import opened Basics
  import opened DroneLogs

  /** `log` is what the server answers when the step's log is fetched, None for an error. */
  datatype Step = Step(name: string, status: string, started: int, stopped: int, log: Option<seq<Line>>)

  datatype Stage = Stage(name: string, status: string, started: int, stopped: int, steps: seq<Step>)

  datatype Build = Build(status: string, created: int, finished: int, stages: seq<Stage>)

  datatype RepoEvent = RepoEvent(slug: string, branch: string, build: Option<Build>)

  datatype Code = CodeUnset | CodeOk | CodeError

  /** Identifiers are numbered in the order they are drawn: random ones are taken to be fresh. */
  datatype Span = Span(traceId: nat, id: nat, parent: Option<nat>, name: string, start: Second, end: Second, code: Code)

  /** A time given in seconds; spans carry its nanoseconds. */
  datatype Second = Second(seconds: int) {
    function Timestamp(): nat {
      ToTimestamp(WrapInt64(seconds * NANOS))
    }
  }

  /** The timestamp is the second's, if its nanoseconds fit, and only then. */
  lemma SecondKept(s: Second)
    ensures s.Timestamp() == s.seconds * 1_000_000_000 <==> 0 <= s.seconds <= 18_446_744_073
  {
    StampModular(0, s.seconds, 0);
  }

  datatype Scope = Scope(spans: seq<Span>)

  /** Whose log it is; its records follow from that. */
  datatype StepLog = StepLog(spanId: nat, started: int, lines: seq<Line>)

  datatype ResourceLogs = ResourceLogs(records: seq<LogRecord>)

  function ExitCode(status: string): Code {
    if status == "failure" || status == "error" then CodeError
    else if status == "success" then CodeOk
    else CodeUnset
  }

  class IdSource {
    var next: nat

    method NewSpanId() returns (id: nat)
      modifies this
      ensures id == old(next) && next == id + 1
    {
      id := next;
      next := next + 1;
    }
  }

  // ---- What is delivered ----

  predicate Skipped(step: Step) {
    step.status == "skipped"
  }

  function BuildSpan(traceId: nat, id: nat, build: Build): Span {
    Span(traceId, id, None, "", Second(build.created), Second(build.finished), ExitCode(build.status))
  }

  function StageSpan(traceId: nat, buildId: nat, id: nat, stage: Stage): Span {
    Span(traceId, id, Some(buildId), stage.name, Second(stage.started), Second(stage.stopped), ExitCode(stage.status))
  }

  function StepSpan(traceId: nat, stageId: nat, id: nat, step: Step): Span {
    Span(traceId, id, Some(stageId), step.name, Second(step.started), Second(step.stopped), ExitCode(step.status))
  }

  /** What the steps of a stage have given so far, and the next free identifier. */
  datatype StepsDone = StepsDone(next: nat, spans: seq<Span>, logs: seq<StepLog>)

  function AddStep(traceId: nat, stageId: nat, p: StepsDone, step: Step): StepsDone {
    if Skipped(step) then p
    else
      StepsDone(p.next + 1, p.spans + [StepSpan(traceId, stageId, p.next, step)],
                p.logs + match step.log case None => [] case Some(lines) => [StepLog(p.next, step.started, lines)])
  }

  function Steps(traceId: nat, stageId: nat, steps: seq<Step>): StepsDone
    decreases |steps|
  {
    if steps == [] then StepsDone(stageId + 1, [], [])
    else AddStep(traceId, stageId, Steps(traceId, stageId, steps[..|steps| - 1]), steps[|steps| - 1])
  }

  datatype StagesDone = StagesDone(next: nat, scopes: seq<Scope>, logs: seq<StepLog>)

  /** A stage's span is drawn first, then those of its steps. */
  function AddStage(traceId: nat, buildId: nat, p: StagesDone, stage: Stage): StagesDone {
    var q := Steps(traceId, p.next, stage.steps);
    StagesDone(q.next, p.scopes + [Scope([StageSpan(traceId, buildId, p.next, stage)] + q.spans)], p.logs + q.logs)
  }

  function Stages(traceId: nat, buildId: nat, stages: seq<Stage>): StagesDone
    decreases |stages|
  {
    if stages == [] then StagesDone(buildId + 1, [], [])
    else AddStage(traceId, buildId, Stages(traceId, buildId, stages[..|stages| - 1]), stages[|stages| - 1])
  }

  /** The records of the logs. */
  function Render(traceId: nat, logs: seq<StepLog>): (rendered: seq<ResourceLogs>)
    ensures |rendered| == |logs|
    ensures forall i :: 0 <= i < |logs| ==>
              rendered[i] == ResourceLogs(RecordsOf(traceId, logs[i].spanId, logs[i].started, logs[i].lines))
  {
    seq(|logs|, i requires 0 <= i < |logs| =>
      ResourceLogs(RecordsOf(traceId, logs[i].spanId, logs[i].started, logs[i].lines)))
  }

  lemma RenderAppend(traceId: nat, a: seq<StepLog>, b: seq<StepLog>)
    ensures Render(traceId, a + b) == Render(traceId, a) + Render(traceId, b)
  {
  }

  datatype Outcome = NilRepoPanic | Dropped | Delivered(scopes: seq<Scope>, logs: seq<ResourceLogs>)

  /** Finished builds of enabled branches of enabled repositories are delivered. */
  predicate Wanted(repo: RepoEvent, config: map<string, seq<string>>) {
    && repo.build.Some? && repo.build.value.finished != 0
    && repo.slug in config && repo.branch in config[repo.slug]
  }

  function Handled(event: Option<RepoEvent>, config: map<string, seq<string>>, traceId: nat, id: nat): Outcome {
    match event
    case None => NilRepoPanic
    case Some(repo) =>
      if !Wanted(repo, config) then Dropped
      else
        var p := Stages(traceId, id, repo.build.value.stages);
        Delivered([Scope([BuildSpan(traceId, id, repo.build.value)])] + p.scopes, Render(traceId, p.logs))
  }

  // ---- The handler ----

  method HandleStep(traceId: nat, stageId: nat, step: Step, ids: IdSource, spans0: seq<Span>, logs0: seq<ResourceLogs>,
                    ghost p: StepsDone)
    returns (spans: seq<Span>, logs: seq<ResourceLogs>)
    requires ids.next == p.next && spans0 == p.spans && logs0 == Render(traceId, p.logs)
    modifies ids
    ensures ids.next == AddStep(traceId, stageId, p, step).next
    ensures spans == AddStep(traceId, stageId, p, step).spans
    ensures logs == Render(traceId, AddStep(traceId, stageId, p, step).logs)
  {
    spans, logs := spans0, logs0;
    if step.status == "skipped" {
      return;
    }
    var id := ids.NewSpanId();
    spans := spans + [Span(traceId, id, Some(stageId), step.name, Second(step.started), Second(step.stopped),
                           ExitCode(step.status))];
    if step.log.None? {
      return;
    }
    RenderAppend(traceId, p.logs, [StepLog(id, step.started, step.log.value)]);
    var records := GenerateLogs(step.log.value, step.started, traceId, id);
    logs := logs + [ResourceLogs(records)];
  }

  /** The inner loop, over a stage whose span has just been numbered. */
  method HandleSteps(traceId: nat, stageId: nat, steps: seq<Step>, ids: IdSource)
    returns (spans: seq<Span>, logs: seq<ResourceLogs>)
    requires ids.next == stageId + 1
    modifies ids
    ensures ids.next == Steps(traceId, stageId, steps).next
    ensures spans == Steps(traceId, stageId, steps).spans
    ensures logs == Render(traceId, Steps(traceId, stageId, steps).logs)
  {
    ghost var p := StepsDone(stageId + 1, [], []);
    spans, logs := [], [];
    for n := 0 to |steps|
      invariant p == Steps(traceId, stageId, steps[..n])
      invariant ids.next == p.next && spans == p.spans && logs == Render(traceId, p.logs)
    {
      assert steps[..n + 1][..n] == steps[..n];
      spans, logs := HandleStep(traceId, stageId, steps[n], ids, spans, logs, p);
      p := AddStep(traceId, stageId, p, steps[n]);
    }
    assert steps[..|steps|] == steps;
  }

  method HandleStage(traceId: nat, buildId: nat, stage: Stage, ids: IdSource, scopes0: seq<Scope>,
                     logs0: seq<ResourceLogs>,
                     ghost p: StagesDone)
    returns (scopes: seq<Scope>, logs: seq<ResourceLogs>)
    requires ids.next == p.next && scopes0 == p.scopes && logs0 == Render(traceId, p.logs)
    modifies ids
    ensures ids.next == AddStage(traceId, buildId, p, stage).next
    ensures scopes == AddStage(traceId, buildId, p, stage).scopes
    ensures logs == Render(traceId, AddStage(traceId, buildId, p, stage).logs)
  {
    var id := ids.NewSpanId();
    var stageSpan := Span(traceId, id, Some(buildId), stage.name, Second(stage.started), Second(stage.stopped),
                          ExitCode(stage.status));
    var spans, stageLogs := HandleSteps(traceId, id, stage.steps, ids);
    RenderAppend(traceId, p.logs, Steps(traceId, id, stage.steps).logs);
    scopes := scopes0 + [Scope([stageSpan] + spans)];
    logs := logs0 + stageLogs;
  }

  method HandleStages(traceId: nat, buildId: nat, stages: seq<Stage>, ids: IdSource)
    returns (scopes: seq<Scope>, logs: seq<ResourceLogs>)
    requires ids.next == buildId + 1
    modifies ids
    ensures scopes == Stages(traceId, buildId, stages).scopes
    ensures logs == Render(traceId, Stages(traceId, buildId, stages).logs)
  {
    ghost var p := StagesDone(buildId + 1, [], []);
    scopes, logs := [], [];
    for n := 0 to |stages|
      invariant p == Stages(traceId, buildId, stages[..n])
      invariant ids.next == p.next && scopes == p.scopes && logs == Render(traceId, p.logs)
    {
      assert stages[..n + 1][..n] == stages[..n];
      scopes, logs := HandleStage(traceId, buildId, stages[n], ids, scopes, logs, p);
      p := AddStage(traceId, buildId, p, stages[n]);
    }
    assert stages[..|stages|] == stages;
  }

  method HandleEvent(event: Option<RepoEvent>, config: map<string, seq<string>>, traceId: nat, ids: IdSource)
    returns (outcome: Outcome)
    modifies ids
    ensures outcome == Handled(event, config, traceId, old(ids.next))
    ensures outcome.NilRepoPanic? <==> event.None?
    ensures outcome.Delivered? <==>
              && event.Some? && event.value.build.Some? && event.value.build.value.finished != 0
              && event.value.slug in config && event.value.branch in config[event.value.slug]
    ensures outcome.Dropped? <==>
              && event.Some?
              && !(&& event.value.build.Some? && event.value.build.value.finished != 0
                   && event.value.slug in config && event.value.branch in config[event.value.slug])
  {
    if event.None? {
      return NilRepoPanic;
    }
    var repo := event.value;
    if repo.build.None? {
      return Dropped;
    }
    var build := repo.build.value;
    if build.finished == 0 {
      return Dropped;
    }
    if repo.slug !in config {
      return Dropped;
    }
    if repo.branch !in config[repo.slug] {
      return Dropped;
    }
    var id := ids.NewSpanId();
    var buildSpan := Span(traceId, id, None, "", Second(build.created), Second(build.finished), ExitCode(build.status));
    var scopes, logs := HandleStages(traceId, id, build.stages, ids);
    return Delivered([Scope([buildSpan])] + scopes, logs);
  }

  // ---- What the spans say ----

  /** The status code a span gets for the status of its build, stage or step. */
  ghost predicate CodeFor(code: Code, status: string) {
    && (code.CodeError? <==> status == "failure" || status == "error")
    && (code.CodeOk? <==> status == "success")
  }

  /** The steps that were not skipped, in order. */
  function NotSkipped(steps: seq<Step>): seq<Step>
    decreases |steps|
  {
    if steps == [] then []
    else
      NotSkipped(steps[..|steps| - 1])
      + if steps[|steps| - 1].status == "skipped" then [] else [steps[|steps| - 1]]
  }

  /** The spans of a stage are its own and one for each step that was not skipped, with their names, times and codes. */
  ghost predicate TellsStage(spans: seq<Span>, stage: Stage) {
    && |spans| == 1 + |NotSkipped(stage.steps)|
    && spans[0].name == stage.name && spans[0].start.seconds == stage.started && spans[0].end.seconds == stage.stopped
    && CodeFor(spans[0].code, stage.status)
    && forall j :: 0 <= j < |NotSkipped(stage.steps)| ==> TellsStep(spans[1 + j], NotSkipped(stage.steps)[j])
  }

  ghost predicate TellsStep(span: Span, step: Step) {
    && span.name == step.name && span.start.seconds == step.started && span.end.seconds == step.stopped
    && CodeFor(span.code, step.status)
  }

  lemma {:induction false} StepsTold(traceId: nat, stageId: nat, steps: seq<Step>)
    ensures var spans, ran := Steps(traceId, stageId, steps).spans, NotSkipped(steps);
            |spans| == |ran| && forall j :: 0 <= j < |ran| ==> TellsStep(spans[j], ran[j])
    decreases |steps|
  {
    if steps != [] {
      StepsTold(traceId, stageId, steps[..|steps| - 1]);
    }
  }

  lemma {:induction false} StagesTold(traceId: nat, buildId: nat, stages: seq<Stage>)
    ensures var scopes := Stages(traceId, buildId, stages).scopes;
            |scopes| == |stages| && forall m :: 0 <= m < |stages| ==> TellsStage(scopes[m].spans, stages[m])
    decreases |stages|
  {
    if stages != [] {
      var init, last := stages[..|stages| - 1], stages[|stages| - 1];
      StagesTold(traceId, buildId, init);
      StepsTold(traceId, Stages(traceId, buildId, init).next, last.steps);
    }
  }

  /** A delivered build is told scope by scope: its own span, from its creation to its end, and then its stages. */
  lemma SpansTellBuild(event: Option<RepoEvent>, config: map<string, seq<string>>, traceId: nat, id: nat)
    requires Handled(event, config, traceId, id).Delivered?
    ensures var build, scopes := event.value.build.value, Handled(event, config, traceId, id).scopes;
            && |scopes| == 1 + |build.stages| && |scopes[0].spans| == 1
            && scopes[0].spans[0].start.seconds == build.created && scopes[0].spans[0].end.seconds == build.finished
            && CodeFor(scopes[0].spans[0].code, build.status)
            && forall m :: 0 <= m < |build.stages| ==> TellsStage(scopes[1 + m].spans, build.stages[m])
  {
    var build := event.value.build.value;
    StagesTold(traceId, id, build.stages);
    ToldAfter(Scope([BuildSpan(traceId, id, build)]), Stages(traceId, id, build.stages).scopes, build.stages);
  }

  lemma ToldAfter(first: Scope, scopes: seq<Scope>, stages: seq<Stage>)
    requires |scopes| == |stages| && forall m :: 0 <= m < |stages| ==> TellsStage(scopes[m].spans, stages[m])
    ensures forall m :: 0 <= m < |stages| ==> TellsStage(([first] + scopes)[1 + m].spans, stages[m])
  {
  }

  // ---- The spans form a tree ----

  /** How many steps ran. */
  function RanInAll(stages: seq<Stage>): nat
    decreases |stages|
  {
    if stages == [] then 0 else RanInAll(stages[..|stages| - 1]) + |NotSkipped(stages[|stages| - 1].steps)|
  }

  /** All spans, scope after scope. */
  function Flatten(scopes: seq<Scope>): seq<Span>
    decreases |scopes|
  {
    if scopes == [] then [] else Flatten(scopes[..|scopes| - 1]) + scopes[|scopes| - 1].spans
  }

  lemma FlattenSnoc(scopes: seq<Scope>, scope: Scope)
    ensures Flatten(scopes + [scope]) == Flatten(scopes) + scope.spans
  {
    assert (scopes + [scope])[..|scopes|] == scopes;
  }

  lemma {:induction false} FlattenCons(head: Scope, scopes: seq<Scope>)
    ensures Flatten([head] + scopes) == head.spans + Flatten(scopes)
    decreases |scopes|
  {
    if scopes == [] {
      assert [head] + scopes == [head] && [head][..0] == [];
    } else {
      var init := scopes[..|scopes| - 1];
      FlattenCons(head, init);
      assert ([head] + scopes)[..|[head] + scopes| - 1] == [head] + init;
    }
  }

  /** Numbered in order from `first` up to `next`, in one trace, all under the same parent. */
  ghost predicate Siblings(spans: seq<Span>, traceId: nat, parent: nat, first: nat, next: nat) {
    && next == first + |spans|
    && forall k :: 0 <= k < |spans| ==>
         spans[k].traceId == traceId && spans[k].id == first + k && spans[k].parent == Some(parent)
  }

  lemma {:induction false} StepsAreSiblings(traceId: nat, stageId: nat, steps: seq<Step>)
    ensures var p := Steps(traceId, stageId, steps);
            Siblings(p.spans, traceId, stageId, stageId + 1, p.next) && |p.spans| == |NotSkipped(steps)|
    decreases |steps|
  {
    if steps != [] {
      StepsAreSiblings(traceId, stageId, steps[..|steps| - 1]);
    }
  }

  /** Numbered in order from `first` up to `next`, in one trace, each under an earlier one or under the root. */
  ghost predicate Branch(spans: seq<Span>, traceId: nat, root: nat, first: nat, next: nat) {
    && next == first + |spans|
    && forall k :: 0 <= k < |spans| ==>
         && spans[k].traceId == traceId && spans[k].id == first + k && spans[k].parent.Some?
         && (spans[k].parent.value == root || first <= spans[k].parent.value < first + k)
  }

  lemma BranchMore(spans: seq<Span>, stage: Span, steps: seq<Span>, traceId: nat, root: nat, first: nat, id: nat,
                   next: nat)
    requires Branch(spans, traceId, root, first, id)
    requires stage.traceId == traceId && stage.id == id && stage.parent == Some(root)
    requires Siblings(steps, traceId, id, id + 1, next)
    ensures Branch(spans + ([stage] + steps), traceId, root, first, next)
  {
  }

  lemma {:induction false} StagesBranch(traceId: nat, buildId: nat, stages: seq<Stage>)
    ensures var p := Stages(traceId, buildId, stages);
            && Branch(Flatten(p.scopes), traceId, buildId, buildId + 1, p.next)
            && |Flatten(p.scopes)| == |stages| + RanInAll(stages)
    decreases |stages|
  {
    if stages != [] {
      var init, last := stages[..|stages| - 1], stages[|stages| - 1];
      StagesBranch(traceId, buildId, init);
      StageBranches(traceId, buildId, Stages(traceId, buildId, init), last);
    }
  }

  lemma StageBranches(traceId: nat, buildId: nat, p: StagesDone, stage: Stage)
    requires Branch(Flatten(p.scopes), traceId, buildId, buildId + 1, p.next)
    ensures var q := AddStage(traceId, buildId, p, stage);
            && Branch(Flatten(q.scopes), traceId, buildId, buildId + 1, q.next)
            && |Flatten(q.scopes)| == |Flatten(p.scopes)| + 1 + |NotSkipped(stage.steps)|
  {
    var span, q := StageSpan(traceId, buildId, p.next, stage), Steps(traceId, p.next, stage.steps);
    StepsAreSiblings(traceId, p.next, stage.steps);
    FlattenSnoc(p.scopes, Scope([span] + q.spans));
    BranchMore(Flatten(p.scopes), span, q.spans, traceId, buildId, buildId + 1, p.next, q.next);
  }

  /** A root and a branch under it make a tree whose identifiers count up from the root's. */
  ghost predicate Tree(spans: seq<Span>, traceId: nat, id: nat) {
    && (forall k :: 0 <= k < |spans| ==> spans[k].traceId == traceId && spans[k].id == id + k)
    && spans != [] && spans[0].parent == None
    && forall k :: 0 < k < |spans| ==> HasEarlierParent(spans, k)
  }

  ghost predicate HasEarlierParent(spans: seq<Span>, k: nat)
    requires k < |spans|
  {
    exists p :: 0 <= p < k && spans[k].parent == Some(spans[p].id)
  }

  lemma TreeOfBranch(root: Span, rest: seq<Span>, traceId: nat, id: nat, next: nat)
    requires root.traceId == traceId && root.id == id && root.parent == None
    requires Branch(rest, traceId, id, id + 1, next)
    ensures Tree([root] + rest, traceId, id)
  {
    var spans := [root] + rest;
    assert forall k :: 0 < k < |spans| ==> spans[k] == rest[k - 1];
    forall k | 0 < k < |spans|
      ensures HasEarlierParent(spans, k)
    {
      var p := spans[k].parent.value - id;
      assert spans[p].id == id + p;
    }
  }

  /**
   * A delivered build has one span for itself, one per stage and one per step that was not skipped; they lie in
   * one trace, no two share an identifier, the build's is the root and the parent of every other precedes it.
   */
  lemma SpansAreTree(event: Option<RepoEvent>, config: map<string, seq<string>>, traceId: nat, id: nat)
    requires Handled(event, config, traceId, id).Delivered?
    ensures var stages, spans := event.value.build.value.stages, Flatten(Handled(event, config, traceId, id).scopes);
            |spans| == 1 + |stages| + RanInAll(stages) && Tree(spans, traceId, id)
  {
    var build := event.value.build.value;
    var root, p := BuildSpan(traceId, id, build), Stages(traceId, id, build.stages);
    StagesBranch(traceId, id, build.stages);
    FlattenCons(Scope([root]), p.scopes);
    TreeOfBranch(root, Flatten(p.scopes), traceId, id, p.next);
  }

  // ---- The logs belong to the steps ----

  /** A step by its place in the build. */
  datatype Site = Site(stage: nat, step: nat)

  /** The steps that ran and whose log could be fetched, in order. */
  function StepSites(stage: nat, steps: seq<Step>): (sites: seq<Site>)
    ensures forall i :: 0 <= i < |sites| ==> sites[i].stage == stage && sites[i].step < |steps|
    decreases |steps|
  {
    if steps == [] then []
    else
      var n := |steps| - 1;
      StepSites(stage, steps[..n]) + if HasLog(steps[n]) then [Site(stage, n)] else []
  }

  predicate HasLog(step: Step) {
    !Skipped(step) && step.log.Some?
  }

  function Sites(stages: seq<Stage>): (sites: seq<Site>)
    ensures forall i :: 0 <= i < |sites| ==>
              sites[i].stage < |stages| && sites[i].step < |stages[sites[i].stage].steps|
    decreases |stages|
  {
    if stages == [] then []
    else
      var n := |stages| - 1;
      Sites(stages[..n]) + StepSites(n, stages[n].steps)
  }

  predicate Before(x: Site, y: Site) {
    x.stage < y.stage || (x.stage == y.stage && x.step < y.step)
  }

  ghost predicate InOrder(sites: seq<Site>) {
    forall i, j :: 0 <= i < j < |sites| ==> Before(sites[i], sites[j])
  }

  lemma {:induction false} StepSitesComplete(stage: nat, steps: seq<Step>)
    ensures InOrder(StepSites(stage, steps))
    ensures forall n: nat :: n < |steps| ==> (Site(stage, n) in StepSites(stage, steps) <==> HasLog(steps[n]))
    decreases |steps|
  {
    if steps != [] {
      StepSitesComplete(stage, steps[..|steps| - 1]);
    }
  }

  lemma {:induction false} SitesListed(stages: seq<Stage>)
    ensures InOrder(Sites(stages))
    ensures forall m: nat, n: nat :: m < |stages| && n < |stages[m].steps| ==>
              (Site(m, n) in Sites(stages) <==> HasLog(stages[m].steps[n]))
    decreases |stages|
  {
    if stages != [] {
      var init, last := stages[..|stages| - 1], stages[|stages| - 1];
      SitesListed(init);
      StepSitesComplete(|init|, last.steps);
      forall m: nat, n: nat | m < |stages| && n < |stages[m].steps|
        ensures Site(m, n) in Sites(stages) <==> HasLog(stages[m].steps[n])
      {
        if m < |init| {
          assert init[m] == stages[m];
        }
      }
    }
  }

  /** The list has each step that was not skipped and has a log once, and no other. */
  lemma SitesComplete(stages: seq<Stage>)
    ensures InOrder(Sites(stages))
    ensures forall m: nat, n: nat :: m < |stages| && n < |stages[m].steps| ==>
              (Site(m, n) in Sites(stages)
               <==> stages[m].steps[n].status != "skipped" && stages[m].steps[n].log.Some?)
  {
    SitesListed(stages);
  }

  /** The log is the step's, and carries the identifier of the step's span among those numbered from `first`. */
  ghost predicate LogOfStep(traceId: nat, parent: nat, log: StepLog, step: Step, spans: seq<Span>, first: nat) {
    && first <= log.spanId < first + |spans|
    && spans[log.spanId - first] == StepSpan(traceId, parent, log.spanId, step)
    && log.started == step.started && step.log == Some(log.lines)
  }

  ghost predicate LogsOfStage(traceId: nat, stageId: nat, p: StepsDone, sites: seq<Site>, steps: seq<Step>)
    requires forall i :: 0 <= i < |sites| ==> sites[i].step < |steps|
  {
    && p.next == stageId + 1 + |p.spans| && |p.logs| == |sites|
    && forall i :: 0 <= i < |sites| ==>
         LogOfStep(traceId, stageId, p.logs[i], steps[sites[i].step], p.spans, stageId + 1)
  }

  lemma {:induction false} StepLogsPlaced(traceId: nat, stageId: nat, stage: nat, steps: seq<Step>)
    ensures LogsOfStage(traceId, stageId, Steps(traceId, stageId, steps), StepSites(stage, steps), steps)
    decreases |steps|
  {
    if steps != [] {
      var init, last := steps[..|steps| - 1], steps[|steps| - 1];
      StepLogsPlaced(traceId, stageId, stage, init);
      StepLogPlaced(traceId, stageId, stage, steps, Steps(traceId, stageId, init), StepSites(stage, init));
    }
  }

  lemma StepLogPlaced(traceId: nat, stageId: nat, stage: nat, steps: seq<Step>, p: StepsDone, sites: seq<Site>)
    requires steps != [] && forall i :: 0 <= i < |sites| ==> sites[i].step < |steps| - 1
    requires LogsOfStage(traceId, stageId, p, sites, steps[..|steps| - 1])
    ensures var n := |steps| - 1;
            LogsOfStage(traceId, stageId, AddStep(traceId, stageId, p, steps[n]),
                        sites + (if HasLog(steps[n]) then [Site(stage, n)] else []), steps)
  {
    var n := |steps| - 1;
    var q := AddStep(traceId, stageId, p, steps[n]);
    forall i | 0 <= i < |sites|
      ensures LogOfStep(traceId, stageId, q.logs[i], steps[sites[i].step], q.spans, stageId + 1)
    {
      assert LogOfStep(traceId, stageId, p.logs[i], steps[..n][sites[i].step], p.spans, stageId + 1);
    }
  }

  /** The step's span stands under the span of its own stage, which stands under the root. */
  ghost predicate Placed(traceId: nat, root: nat, log: StepLog, stage: Stage, step: Step, spans: seq<Span>) {
    && root < log.spanId <= root + |spans|
    && spans[log.spanId - root - 1].parent.Some?
    && var over := spans[log.spanId - root - 1].parent.value;
       && LogOfStep(traceId, over, log, step, spans, root + 1)
       && root < over <= root + |spans|
       && spans[over - root - 1] == StageSpan(traceId, root, over, stage)
  }

  ghost predicate SitesIn(sites: seq<Site>, stages: seq<Stage>) {
    forall i :: 0 <= i < |sites| ==> sites[i].stage < |stages| && sites[i].step < |stages[sites[i].stage].steps|
  }

  ghost predicate PlacedAt(traceId: nat, root: nat, logs: seq<StepLog>, sites: seq<Site>, stages: seq<Stage>,
                           spans: seq<Span>)
    requires SitesIn(sites, stages)
  {
    && |logs| == |sites|
    && forall i :: 0 <= i < |logs| ==>
         Placed(traceId, root, logs[i], stages[sites[i].stage], stages[sites[i].stage].steps[sites[i].step], spans)
  }

  lemma PlacedBefore(traceId: nat, root: nat, log: StepLog, stage: Stage, step: Step, spans: seq<Span>, more: seq<Span>)
    requires Placed(traceId, root, log, stage, step, spans)
    ensures Placed(traceId, root, log, stage, step, spans + more)
  {
  }

  lemma PlacedInStage(traceId: nat, root: nat, log: StepLog, stage: Stage, step: Step, spans: seq<Span>, id: nat,
                      steps: seq<Span>)
    requires LogOfStep(traceId, id, log, step, steps, id + 1) && id == root + 1 + |spans|
    ensures Placed(traceId, root, log, stage, step, spans + ([StageSpan(traceId, root, id, stage)] + steps))
  {
    var all := spans + ([StageSpan(traceId, root, id, stage)] + steps);
    assert all[log.spanId - root - 1] == steps[log.spanId - id - 1];
    assert all[id - root - 1] == StageSpan(traceId, root, id, stage);
  }

  lemma EarlierPlaced(traceId: nat, root: nat, logs: seq<StepLog>, sites: seq<Site>, init: seq<Stage>, last: Stage,
                      spans: seq<Span>, more: seq<Span>)
    requires SitesIn(sites, init) && PlacedAt(traceId, root, logs, sites, init, spans)
    ensures SitesIn(sites, init + [last]) && PlacedAt(traceId, root, logs, sites, init + [last], spans + more)
  {
    var stages := init + [last];
    assert forall m :: 0 <= m < |init| ==> stages[m] == init[m];
    forall i | 0 <= i < |logs|
      ensures Placed(traceId, root, logs[i], stages[sites[i].stage], stages[sites[i].stage].steps[sites[i].step],
                     spans + more)
    {
      var stage := init[sites[i].stage];
      PlacedBefore(traceId, root, logs[i], stage, stage.steps[sites[i].step], spans, more);
    }
  }

  lemma OwnPlaced(traceId: nat, root: nat, init: seq<Stage>, last: Stage, q: StepsDone, spans: seq<Span>, id: nat,
                  sites: seq<Site>)
    requires sites == StepSites(|init|, last.steps) && LogsOfStage(traceId, id, q, sites, last.steps)
    requires id == root + 1 + |spans|
    ensures SitesIn(sites, init + [last])
    ensures PlacedAt(traceId, root, q.logs, sites, init + [last],
                     spans + ([StageSpan(traceId, root, id, last)] + q.spans))
  {
    var stages := init + [last];
    assert stages[|init|] == last;
    forall i | 0 <= i < |q.logs|
      ensures Placed(traceId, root, q.logs[i], stages[sites[i].stage], stages[sites[i].stage].steps[sites[i].step],
                     spans + ([StageSpan(traceId, root, id, last)] + q.spans))
    {
      PlacedInStage(traceId, root, q.logs[i], last, last.steps[sites[i].step], spans, id, q.spans);
    }
  }

  lemma PlacedAppend(traceId: nat, root: nat, a: seq<StepLog>, x: seq<Site>, b: seq<StepLog>, y: seq<Site>,
                     stages: seq<Stage>, spans: seq<Span>)
    requires SitesIn(x, stages) && PlacedAt(traceId, root, a, x, stages, spans)
    requires SitesIn(y, stages) && PlacedAt(traceId, root, b, y, stages, spans)
    ensures SitesIn(x + y, stages) && PlacedAt(traceId, root, a + b, x + y, stages, spans)
  {
  }

  ghost predicate AllPlaced(traceId: nat, root: nat, p: StagesDone, stages: seq<Stage>) {
    && p.next == root + 1 + |Flatten(p.scopes)|
    && SitesIn(Sites(stages), stages)
    && PlacedAt(traceId, root, p.logs, Sites(stages), stages, Flatten(p.scopes))
  }

  lemma StagePlaced(traceId: nat, root: nat, p: StagesDone, init: seq<Stage>, last: Stage)
    requires AllPlaced(traceId, root, p, init)
    ensures AllPlaced(traceId, root, AddStage(traceId, root, p, last), init + [last])
  {
    var q, span, sites := Steps(traceId, p.next, last.steps), StageSpan(traceId, root, p.next, last),
                          StepSites(|init|, last.steps);
    var before, stages := Flatten(p.scopes), init + [last];
    assert stages[..|init|] == init;
    assert Sites(stages) == Sites(init) + sites;
    StepLogsPlaced(traceId, p.next, |init|, last.steps);
    FlattenSnoc(p.scopes, Scope([span] + q.spans));
    EarlierPlaced(traceId, root, p.logs, Sites(init), init, last, before, [span] + q.spans);
    OwnPlaced(traceId, root, init, last, q, before, p.next, sites);
    PlacedAppend(traceId, root, p.logs, Sites(init), q.logs, sites, stages, before + ([span] + q.spans));
  }

  lemma {:induction false} StageLogsPlaced(traceId: nat, root: nat, stages: seq<Stage>)
    ensures AllPlaced(traceId, root, Stages(traceId, root, stages), stages)
    decreases |stages|
  {
    if stages != [] {
      var init, last := stages[..|stages| - 1], stages[|stages| - 1];
      assert stages == init + [last];
      StageLogsPlaced(traceId, root, init);
      StagePlaced(traceId, root, Stages(traceId, root, init), init, last);
    }
  }

  /** Each log belongs to a different one of the spans numbered from `first` up to `next`, in their order. */
  ghost predicate Increasing(logs: seq<StepLog>, first: nat, next: nat) {
    && first <= next
    && (forall i :: 0 <= i < |logs| ==> first <= logs[i].spanId < next)
    && forall i, j :: 0 <= i < j < |logs| ==> logs[i].spanId < logs[j].spanId
  }

  lemma {:induction false} StepLogsIncrease(traceId: nat, stageId: nat, steps: seq<Step>)
    ensures Increasing(Steps(traceId, stageId, steps).logs, stageId + 1, Steps(traceId, stageId, steps).next)
    decreases |steps|
  {
    if steps != [] {
      StepLogsIncrease(traceId, stageId, steps[..|steps| - 1]);
    }
  }

  lemma IncreaseMore(a: seq<StepLog>, b: seq<StepLog>, first: nat, id: nat, next: nat)
    requires Increasing(a, first, id) && Increasing(b, id + 1, next)
    ensures Increasing(a + b, first, next)
  {
  }

  lemma {:induction false} StageLogsIncrease(traceId: nat, buildId: nat, stages: seq<Stage>)
    ensures Increasing(Stages(traceId, buildId, stages).logs, buildId + 1, Stages(traceId, buildId, stages).next)
    decreases |stages|
  {
    if stages != [] {
      var init, last := stages[..|stages| - 1], stages[|stages| - 1];
      var p := Stages(traceId, buildId, init);
      var q := Steps(traceId, p.next, last.steps);
      StageLogsIncrease(traceId, buildId, init);
      StepLogsIncrease(traceId, p.next, last.steps);
      IncreaseMore(p.logs, q.logs, buildId + 1, p.next, q.next);
    }
  }

  /**
   * What the i-th log of a delivered build is: the records of the lines fetched for the i-th step that has a log, under
   * the identifier of exactly this step's span, which stands under the span of this step's stage.
   */
  ghost predicate IsLogOf(traceId: nat, id: nat, log: ResourceLogs, stage: Stage, step: Step, spans: seq<Span>,
                          owner: nat) {
    && HasLog(step) && log == ResourceLogs(RecordsOf(traceId, owner, step.started, step.log.value))
    && id < owner < id + |spans| && spans[owner - id].parent.Some?
    && var over := spans[owner - id].parent.value;
       && id < over < id + |spans|
       && spans[owner - id] == StepSpan(traceId, over, owner, step)
       && spans[over - id] == StageSpan(traceId, id, over, stage)
  }

  lemma {:induction false} SitesHaveLogs(stages: seq<Stage>, i: nat)
    requires i < |Sites(stages)|
    ensures var site := Sites(stages)[i]; HasLog(stages[site.stage].steps[site.step])
  {
    SitesComplete(stages);
    var site := Sites(stages)[i];
    assert Site(site.stage, site.step) in Sites(stages);
  }

  /**
   * No log is lost, doubled or misplaced: there is one for each step that ran and whose log could be fetched, in
   * the order of the build, it has that step's lines, and it carries the identifier of that step's span.
   */
  lemma LogsBelongToSteps(event: Option<RepoEvent>, config: map<string, seq<string>>, traceId: nat, id: nat)
    returns (owners: seq<nat>)
    requires Handled(event, config, traceId, id).Delivered?
    ensures var stages, logs := event.value.build.value.stages, Handled(event, config, traceId, id).logs;
            var spans := Flatten(Handled(event, config, traceId, id).scopes);
            && |logs| == |owners| == |Sites(stages)|
            && (forall i, j :: 0 <= i < j < |owners| ==> owners[i] < owners[j])
            && forall i :: 0 <= i < |logs| ==>
                 var site := Sites(stages)[i];
                 IsLogOf(traceId, id, logs[i], stages[site.stage], stages[site.stage].steps[site.step], spans,
                         owners[i])
  {
    var build := event.value.build.value;
    var stages, root, p := build.stages, BuildSpan(traceId, id, build), Stages(traceId, id, build.stages);
    StageLogsPlaced(traceId, id, stages);
    StageLogsIncrease(traceId, id, stages);
    FlattenCons(Scope([root]), p.scopes);
    owners := seq(|p.logs|, i requires 0 <= i < |p.logs| => p.logs[i].spanId);
    var rest, logs := Flatten(p.scopes), Render(traceId, p.logs);
    forall i | 0 <= i < |logs|
      ensures var site := Sites(stages)[i];
              IsLogOf(traceId, id, logs[i], stages[site.stage], stages[site.stage].steps[site.step],
                      [root] + rest, owners[i])
    {
      var site := Sites(stages)[i];
      SitesHaveLogs(stages, i);
      PlacedIsLog(traceId, id, p.logs[i], stages[site.stage], stages[site.stage].steps[site.step], root, rest);
    }
  }

  lemma PlacedIsLog(traceId: nat, id: nat, log: StepLog, stage: Stage, step: Step, root: Span, rest: seq<Span>)
    requires Placed(traceId, id, log, stage, step, rest) && HasLog(step)
    ensures IsLogOf(traceId, id, ResourceLogs(RecordsOf(traceId, log.spanId, log.started, log.lines)), stage, step,
                    [root] + rest, log.spanId)
  {
    var spans := [root] + rest;
    assert spans[log.spanId - id] == rest[log.spanId - id - 1];
    var over := rest[log.spanId - id - 1].parent.value;
    assert spans[over - id] == rest[over - id - 1];
  }
}
