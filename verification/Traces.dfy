// The spans made of workflow job and workflow run events. Each event is turned into spans on
// its own; that the spans of separately delivered events fit together is what is proved.
module Traces {
  import opened Basics
  import opened Text
  import opened TraceIdentity

  // ---- Events and spans as values ----

  /** A time is None when it is the zero time. */
  datatype Step = Step(name: string, status: string, conclusion: string, number: int,
                       startedAt: Option<int>, completedAt: Option<int>)

  datatype WorkflowJob = WorkflowJob(runId: int, runAttempt: int, name: string, conclusion: string,
                                     headBranch: string, startedAt: Option<int>, completedAt: Option<int>)

  datatype WorkflowRun = WorkflowRun(id: int, attempt: int, name: string, conclusion: string, headBranch: string,
                                     runStartedAt: Option<int>, updatedAt: Option<int>, previousAttemptUrl: string)

  datatype Code = CodeUnset | CodeOk | CodeError

  datatype Span = Span(traceId: seq<Byte>, spanId: seq<Byte>, parentId: Option<seq<Byte>>, name: string,
                       start: Option<int>, end: Option<int>, code: Code, message: string,
                       links: seq<seq<Byte>>, isMain: Option<bool>, step: Option<Step>)

  function ConclusionCode(conclusion: string): Code {
    if conclusion == "success" then CodeOk else if conclusion == "failure" then CodeError else CodeUnset
  }

  /** GitHub sometimes sends no completion time: the start stands in for it. */
  function Settled(step: Step): Step {
    if step.completedAt.None? then step.(completedAt := step.startedAt) else step
  }

  predicate Failed(step: Step) {
    step.conclusion == "failure"
  }

  predicate Succeeded(step: Step) {
    step.status == "completed" && step.conclusion == "success"
  }

  /** A job failed if any step did, and is fine if all steps are. */
  ghost function JobCode(steps: seq<Step>): Code {
    if exists i :: 0 <= i < |steps| && Failed(steps[i]) then CodeError
    else if forall i :: 0 <= i < |steps| ==> Succeeded(steps[i]) then CodeOk
    else CodeUnset
  }

  /** The span of a job in the given trace. */
  ghost function JobSpanIn(sha: Sha, traceId: seq<Byte>, job: WorkflowJob, steps: seq<Step>): Span {
    Span(traceId, SpanId(sha, job.runId, job.runAttempt, JobNode(job.name)),
         Some(SpanId(sha, job.runId, job.runAttempt, Root)), job.name,
         if steps == [] then job.startedAt else steps[0].startedAt,
         if steps == [] then job.completedAt else steps[|steps| - 1].completedAt,
         JobCode(steps), job.conclusion, [], None, None)
  }

  /** The span of a step in the given trace, under the given parent. */
  ghost function StepSpanIn(sha: Sha, traceId: seq<Byte>, parentId: seq<Byte>, job: WorkflowJob,
                            defaultBranch: Option<string>, step: Step): Span {
    var settled := Settled(step);
    Span(traceId, SpanId(sha, job.runId, job.runAttempt, StepNode(job.name, step.number)),
         Some(parentId), step.name,
         settled.startedAt, settled.completedAt, ConclusionCode(step.conclusion), step.conclusion, [],
         Some(defaultBranch == Some(job.headBranch)), Some(settled))
  }

  ghost function StepSpansIn(sha: Sha, traceId: seq<Byte>, parentId: seq<Byte>, job: WorkflowJob,
                             defaultBranch: Option<string>, steps: seq<Step>): (spans: seq<Span>)
    ensures |spans| == |steps|
    ensures forall i :: 0 <= i < |steps| ==>
              spans[i] == StepSpanIn(sha, traceId, parentId, job, defaultBranch, steps[i])
  {
    seq(|steps|, i requires 0 <= i < |steps| => StepSpanIn(sha, traceId, parentId, job, defaultBranch, steps[i]))
  }

  ghost function RootSpanIn(sha: Sha, traceId: seq<Byte>, run: WorkflowRun, defaultBranch: string): Span {
    Span(traceId, SpanId(sha, run.id, run.attempt, Root), None, run.name,
         run.runStartedAt, run.updatedAt, ConclusionCode(run.conclusion), run.conclusion,
         if run.previousAttemptUrl != "" && run.attempt > 1 then [TraceId(sha, run.id, run.attempt - 1)] else [],
         Some(run.headBranch == defaultBranch), None)
  }

  // The spans of whole events: the identifiers handed down are those of the attempt and of the job.

  ghost function JobSpan(sha: Sha, job: WorkflowJob, steps: seq<Step>): Span {
    JobSpanIn(sha, TraceId(sha, job.runId, job.runAttempt), job, steps)
  }

  ghost function StepSpan(sha: Sha, job: WorkflowJob, defaultBranch: Option<string>, step: Step): Span {
    StepSpanIn(sha, TraceId(sha, job.runId, job.runAttempt), SpanId(sha, job.runId, job.runAttempt, JobNode(job.name)),
               job, defaultBranch, step)
  }

  ghost function StepSpans(sha: Sha, job: WorkflowJob, defaultBranch: Option<string>, steps: seq<Step>): seq<Span> {
    StepSpansIn(sha, TraceId(sha, job.runId, job.runAttempt), SpanId(sha, job.runId, job.runAttempt, JobNode(job.name)),
                job, defaultBranch, steps)
  }

  ghost function RootSpan(sha: Sha, run: WorkflowRun, defaultBranch: string): Span {
    RootSpanIn(sha, TraceId(sha, run.id, run.attempt), run, defaultBranch)
  }

  lemma StepSpansSnoc(sha: Sha, traceId: seq<Byte>, parentId: seq<Byte>, job: WorkflowJob,
                      defaultBranch: Option<string>, steps: seq<Step>, n: nat)
    requires n < |steps|
    ensures StepSpansIn(sha, traceId, parentId, job, defaultBranch, steps[..n + 1])
            == StepSpansIn(sha, traceId, parentId, job, defaultBranch, steps[..n])
               + [StepSpanIn(sha, traceId, parentId, job, defaultBranch, steps[n])]
  {
  }

  /** A step that was already settled gives the same span. */
  lemma SettledTwice(sha: Sha, traceId: seq<Byte>, parentId: seq<Byte>, job: WorkflowJob, defaultBranch: Option<string>,
                     step: Step)
    ensures Settled(Settled(step)) == Settled(step)
    ensures StepSpanIn(sha, traceId, parentId, job, defaultBranch, Settled(step))
            == StepSpanIn(sha, traceId, parentId, job, defaultBranch, step)
  {
  }

  /** The completion time of a step that has been, or may have been, settled. */
  predicate Halfway(was: Step, completedAt: Option<int>, settled: bool) {
    completedAt == Settled(was).completedAt || (!settled && completedAt == was.completedAt)
  }

  // ---- Making the spans ----

  class TaskStep {
    const name: string
    const status: string
    const conclusion: string
    const number: int
    const startedAt: Option<int>
    var completedAt: Option<int>

    function Value(): Step
      reads this
    {
      Step(name, status, conclusion, number, startedAt, completedAt)
    }

    constructor (step: Step)
      ensures Value() == step
    {
      name, status, conclusion, number := step.name, step.status, step.conclusion, step.number;
      startedAt, completedAt := step.startedAt, step.completedAt;
    }
  }

  class ScopeSpans {
    var spans: seq<Span>

    constructor ()
      ensures spans == []
    {
      spans := [];
    }
  }

  function Values(steps: seq<TaskStep>): (values: seq<Step>)
    reads steps
    ensures |values| == |steps|
    ensures forall i :: 0 <= i < |steps| ==> values[i] == steps[i].Value()
  {
    seq(|steps|, i requires 0 <= i < |steps| reads steps => steps[i].Value())
  }

  /** The first `n` steps have been settled, and any of them may occur again among the others. */
  ghost predicate SettledSome(steps: seq<TaskStep>, was: seq<Step>, n: nat)
    reads steps
  {
    && |was| == |steps|
    && (forall i :: 0 <= i < |steps| ==> steps[i].Value() == was[i].(completedAt := steps[i].completedAt))
    && forall i :: 0 <= i < |steps| ==> Halfway(was[i], steps[i].completedAt, i < n)
  }

  /** The status loop stops at the first failure. */
  method StatusOf(steps: seq<TaskStep>) returns (code: Code)
    ensures code == JobCode(Values(steps))
  {
    var allSuccessful, anyFailure := true, false;
    ghost var values := Values(steps);
    var n := 0;
    while n < |steps|
      invariant 0 <= n <= |steps|
      invariant !anyFailure && forall i :: 0 <= i < n ==> !Failed(values[i])
      invariant allSuccessful <==> forall i :: 0 <= i < n ==> Succeeded(values[i])
    {
      var step := steps[n];
      assert values[n] == step.Value();
      if step.status != "completed" || step.conclusion != "success" {
        allSuccessful := false;
      }
      if step.conclusion == "failure" {
        anyFailure := true;
        assert Failed(values[n]);
        break;
      }
      n := n + 1;
    }
    code := if anyFailure then CodeError else if allSuccessful then CodeOk else CodeUnset;
  }

  method CreateParentSpan(sha: Sha, scope: ScopeSpans, steps: seq<TaskStep>, job: WorkflowJob, traceId: seq<Byte>)
    returns (spanId: seq<Byte>)
    modifies scope
    ensures scope.spans == old(scope.spans) + [JobSpanIn(sha, traceId, job, Values(steps))]
    ensures spanId == JobSpanIn(sha, traceId, job, Values(steps)).spanId
  {
    var parentId := SpanId(sha, job.runId, job.runAttempt, Root);
    spanId := SpanId(sha, job.runId, job.runAttempt, JobNode(job.name));
    var start, end := job.startedAt, job.completedAt;
    if |steps| > 0 {
      start, end := steps[0].startedAt, steps[|steps| - 1].completedAt;
    }
    var code := StatusOf(steps);
    scope.spans := scope.spans + [Span(traceId, spanId, Some(parentId), job.name, start, end, code, job.conclusion,
                                       [], None, None)];
  }

  /** Turns a step into a span, writing the missing completion time back into the step. */
  method CreateSpan(sha: Sha, scope: ScopeSpans, step: TaskStep, job: WorkflowJob, defaultBranch: Option<string>,
                    traceId: seq<Byte>, parentId: seq<Byte>)
    modifies scope, step`completedAt
    ensures step.Value() == Settled(old(step.Value()))
    ensures scope.spans
            == old(scope.spans) + [StepSpanIn(sha, traceId, parentId, job, defaultBranch, old(step.Value()))]
  {
    var isMain := false;
    if defaultBranch.Some? {
      isMain := job.headBranch == defaultBranch.value;
    }
    var spanId := SpanId(sha, job.runId, job.runAttempt, StepNode(job.name, step.number));
    if step.completedAt.None? {
      step.completedAt := step.startedAt;
    }
    var code := CodeUnset;
    match step.conclusion {
      case "success" => code := CodeOk;
      case "failure" => code := CodeError;
      case _ =>
    }
    scope.spans := scope.spans + [Span(traceId, spanId, Some(parentId), step.name, step.startedAt, step.completedAt,
                                       code, step.conclusion, [], Some(isMain), Some(step.Value()))];
  }

  method CreateNextSpan(sha: Sha, scope: ScopeSpans, steps: seq<TaskStep>, ghost was: seq<Step>, n: nat,
                        job: WorkflowJob, defaultBranch: Option<string>, traceId: seq<Byte>, parentId: seq<Byte>)
    requires n < |steps| && SettledSome(steps, was, n)
    modifies scope, steps[n]
    ensures SettledSome(steps, was, n + 1)
    ensures scope.spans == old(scope.spans) + [StepSpanIn(sha, traceId, parentId, job, defaultBranch, was[n])]
  {
    SettledTwice(sha, traceId, parentId, job, defaultBranch, was[n]);
    CreateSpan(sha, scope, steps[n], job, defaultBranch, traceId, parentId);
    forall i | 0 <= i < |steps|
      ensures Halfway(was[i], steps[i].completedAt, i < n + 1)
    {
      if steps[i] == steps[n] {
        assert steps[i].Value() == steps[n].Value();
      }
    }
  }

  /** The steps may even be shared: settling a step twice changes nothing. */
  method ProcessSteps(sha: Sha, scope: ScopeSpans, steps: seq<TaskStep>, job: WorkflowJob,
                      defaultBranch: Option<string>, traceId: seq<Byte>, parentId: seq<Byte>)
    modifies scope, steps
    ensures forall i :: 0 <= i < |steps| ==> steps[i].Value() == Settled(old(steps[i].Value()))
    ensures scope.spans
            == old(scope.spans) + StepSpansIn(sha, traceId, parentId, job, defaultBranch, old(Values(steps)))
  {
    ghost var was := Values(steps);
    for n := 0 to |steps|
      invariant SettledSome(steps, was, n)
      invariant scope.spans == old(scope.spans) + StepSpansIn(sha, traceId, parentId, job, defaultBranch, was[..n])
    {
      CreateNextSpan(sha, scope, steps, was, n, job, defaultBranch, traceId, parentId);
      StepSpansSnoc(sha, traceId, parentId, job, defaultBranch, was, n);
    }
    assert was[..|steps|] == was;
  }

  method CreateRootSpan(sha: Sha, scope: ScopeSpans, run: WorkflowRun, defaultBranch: string, traceId: seq<Byte>)
    returns (spanId: seq<Byte>)
    modifies scope
    ensures scope.spans == old(scope.spans) + [RootSpanIn(sha, traceId, run, defaultBranch)]
    ensures spanId == RootSpanIn(sha, traceId, run, defaultBranch).spanId
  {
    spanId := SpanId(sha, run.id, run.attempt, Root);
    var code := CodeUnset;
    match run.conclusion {
      case "success" => code := CodeOk;
      case "failure" => code := CodeError;
      case _ =>
    }
    var links: seq<seq<Byte>> := [];
    if run.previousAttemptUrl != "" && run.attempt > 1 {
      links := [TraceId(sha, run.id, run.attempt - 1)];
    }
    scope.spans := scope.spans + [Span(traceId, spanId, None, run.name, run.runStartedAt, run.updatedAt, code,
                                       run.conclusion, links, Some(run.headBranch == defaultBranch), None)];
  }

  /** The spans of a job event: the job's, and under it one for every step. */
  method JobEventToTraces(sha: Sha, job: WorkflowJob, steps: seq<TaskStep>, defaultBranch: Option<string>)
    returns (scope: ScopeSpans)
    modifies steps
    ensures fresh(scope)
    ensures scope.spans == JobEventSpans(sha, JobEvent(job, old(Values(steps)), defaultBranch))
    ensures scope.spans != [] && scope.spans[0].name == job.name
    ensures scope.spans[0].start == if |steps| > 0 then steps[0].startedAt else job.startedAt
    ensures scope.spans[0].end == if |steps| > 0 then old(steps[|steps| - 1].completedAt) else job.completedAt
  {
    JobSpanFields(sha, JobEvent(job, Values(steps), defaultBranch));
    scope := new ScopeSpans();
    var traceId := TraceId(sha, job.runId, job.runAttempt);
    ghost var was := Values(steps);
    var parentId := CreateParentSpan(sha, scope, steps, job, traceId);
    assert Values(steps) == was && scope.spans == [JobSpan(sha, job, was)];
    ProcessSteps(sha, scope, steps, job, defaultBranch, traceId, parentId);
  }

  /** The root span goes to a second scope; the first stays empty. */
  method RunEventToTraces(sha: Sha, run: WorkflowRun, defaultBranch: string) returns (scopes: seq<ScopeSpans>)
    ensures |scopes| == 2 && fresh(scopes[0]) && fresh(scopes[1])
    ensures scopes[0].spans == [] && scopes[1].spans == [RootSpan(sha, run, defaultBranch)]
  {
    var first := new ScopeSpans();
    var traceId := TraceId(sha, run.id, run.attempt);
    var second := new ScopeSpans();
    var spanId := CreateRootSpan(sha, second, run, defaultBranch, traceId);
    scopes := [first, second];
  }

  // ---- The trace of one run attempt, put together from separate events ----

  datatype JobEvent = JobEvent(job: WorkflowJob, steps: seq<Step>, defaultBranch: Option<string>)

  ghost function JobEventSpans(sha: Sha, event: JobEvent): seq<Span> {
    [JobSpan(sha, event.job, event.steps)] + StepSpans(sha, event.job, event.defaultBranch, event.steps)
  }

  lemma JobCodeFields(steps: seq<Step>)
    ensures JobCode(steps).CodeError? <==> exists i :: 0 <= i < |steps| && steps[i].conclusion == "failure"
    ensures JobCode(steps).CodeOk? <==>
              forall i :: 0 <= i < |steps| ==> steps[i].status == "completed" && steps[i].conclusion == "success"
  {
    assert forall i :: 0 <= i < |steps| ==> (Failed(steps[i]) <==> steps[i].conclusion == "failure");
    assert forall i :: 0 <= i < |steps| ==>
             (Succeeded(steps[i]) <==> steps[i].status == "completed" && steps[i].conclusion == "success");
  }

  /** What the span of a job says. */
  ghost predicate TellsJob(span: Span, job: WorkflowJob, steps: seq<Step>) {
    && span.name == job.name && span.message == job.conclusion
    && span.start == (if |steps| > 0 then steps[0].startedAt else job.startedAt)
    && span.end == (if |steps| > 0 then steps[|steps| - 1].completedAt else job.completedAt)
    && (span.code.CodeError? <==> exists i :: 0 <= i < |steps| && steps[i].conclusion == "failure")
    && (span.code.CodeOk? <==>
          forall i :: 0 <= i < |steps| ==> steps[i].status == "completed" && steps[i].conclusion == "success")
    && span.links == []
  }

  lemma JobTold(sha: Sha, job: WorkflowJob, steps: seq<Step>)
    ensures TellsJob(JobSpan(sha, job, steps), job, steps)
  {
    JobCodeFields(steps);
  }

  /** The job's span: from the start of its first step to the completion of its last, or else from its own times. */
  lemma JobSpanFields(sha: Sha, event: JobEvent)
    ensures TellsJob(JobEventSpans(sha, event)[0], event.job, event.steps)
  {
    JobTold(sha, event.job, event.steps);
  }

  /** What the span of a step says: a missing completion is taken for the start. */
  ghost predicate TellsStep(span: Span, step: Step, isMain: bool) {
    && span.name == step.name && span.message == step.conclusion
    && span.start == step.startedAt
    && span.end == (if step.completedAt.Some? then step.completedAt else step.startedAt)
    && (span.code.CodeOk? <==> step.conclusion == "success")
    && (span.code.CodeError? <==> step.conclusion == "failure")
    && span.links == [] && span.isMain == Some(isMain)
    && span.step == Some(Step(step.name, step.status, step.conclusion, step.number, span.start, span.end))
  }

  lemma StepTold(sha: Sha, job: WorkflowJob, defaultBranch: Option<string>, step: Step)
    ensures TellsStep(StepSpan(sha, job, defaultBranch, step), step, defaultBranch == Some(job.headBranch))
  {
  }

  /** The span of the i-th step has the step's own name, conclusion, times and attributes. */
  lemma StepSpanFields(sha: Sha, event: JobEvent, i: nat)
    requires i < |event.steps|
    ensures |JobEventSpans(sha, event)| == 1 + |event.steps|
    ensures TellsStep(JobEventSpans(sha, event)[1 + i], event.steps[i],
                      event.defaultBranch == Some(event.job.headBranch))
  {
    var steps := StepSpans(sha, event.job, event.defaultBranch, event.steps);
    StepTold(sha, event.job, event.defaultBranch, event.steps[i]);
    AfterFirst(JobSpan(sha, event.job, event.steps), steps, i);
  }

  lemma AfterFirst<T>(first: T, rest: seq<T>, i: nat)
    requires i < |rest|
    ensures ([first] + rest)[1 + i] == rest[i]
  {
  }

  /** The root span: the run's own name, conclusion and times, and a link if it is a repeated attempt. */
  lemma RootSpanFields(sha: Sha, run: WorkflowRun, defaultBranch: string)
    ensures var span := RootSpan(sha, run, defaultBranch);
            && span.name == run.name && span.message == run.conclusion
            && span.start == run.runStartedAt && span.end == run.updatedAt
            && (span.code.CodeOk? <==> run.conclusion == "success")
            && (span.code.CodeError? <==> run.conclusion == "failure")
            && |span.links| == (if run.previousAttemptUrl != "" && run.attempt > 1 then 1 else 0)
            && span.isMain == Some(run.headBranch == defaultBranch)
  {
  }

  /** Everything emitted for one attempt: the spans of its run event and of its job events. */
  ghost function AttemptSpans(sha: Sha, run: WorkflowRun, defaultBranch: string, events: seq<JobEvent>): seq<Span>
    decreases |events|
  {
    if events == [] then [RootSpan(sha, run, defaultBranch)]
    else AttemptSpans(sha, run, defaultBranch, events[..|events| - 1]) + JobEventSpans(sha, events[|events| - 1])
  }

  function JobEventNodes(event: JobEvent): seq<Node> {
    [JobNode(event.job.name)] + StepNodes(event)
  }

  function StepNodes(event: JobEvent): (nodes: seq<Node>)
    ensures |nodes| == |event.steps|
    ensures forall i :: 0 <= i < |event.steps| ==> nodes[i] == StepNode(event.job.name, event.steps[i].number)
  {
    seq(|event.steps|, i requires 0 <= i < |event.steps| => StepNode(event.job.name, event.steps[i].number))
  }

  /** What those spans stand for. */
  function AttemptNodes(events: seq<JobEvent>): seq<Node>
    decreases |events|
  {
    if events == [] then [Root] else AttemptNodes(events[..|events| - 1]) + JobEventNodes(events[|events| - 1])
  }

  function Parent(node: Node): Option<Node> {
    match node
    case Root => None
    case JobNode(_) => Some(Root)
    case StepNode(job, _) => Some(JobNode(job))
  }

  ghost predicate OfAttempt(events: seq<JobEvent>, id: int, attempt: int) {
    forall i :: 0 <= i < |events| ==> events[i].job.runId == id && events[i].job.runAttempt == attempt
  }

  /** The span carries the identifiers of the node, in the attempt's trace, under the node's parent. */
  ghost predicate Carries(sha: Sha, id: int, attempt: int, span: Span, node: Node) {
    && span.traceId == TraceId(sha, id, attempt)
    && span.spanId == SpanId(sha, id, attempt, node)
    && span.parentId == match Parent(node) case None => None case Some(p) => Some(SpanId(sha, id, attempt, p))
  }

  ghost predicate CarryAll(sha: Sha, id: int, attempt: int, spans: seq<Span>, nodes: seq<Node>) {
    |spans| == |nodes| && forall i :: 0 <= i < |nodes| ==> Carries(sha, id, attempt, spans[i], nodes[i])
  }

  lemma CarryMore(sha: Sha, id: int, attempt: int, a: seq<Span>, x: seq<Node>, b: seq<Span>, y: seq<Node>)
    requires CarryAll(sha, id, attempt, a, x) && CarryAll(sha, id, attempt, b, y)
    ensures CarryAll(sha, id, attempt, a + b, x + y)
  {
  }

  lemma JobSpanCarriesNode(sha: Sha, job: WorkflowJob, steps: seq<Step>)
    ensures CarryAll(sha, job.runId, job.runAttempt, [JobSpan(sha, job, steps)], [JobNode(job.name)])
  {
  }

  lemma StepSpanCarriesNode(sha: Sha, job: WorkflowJob, defaultBranch: Option<string>, step: Step)
    ensures Carries(sha, job.runId, job.runAttempt, StepSpan(sha, job, defaultBranch, step),
                    StepNode(job.name, step.number))
  {
  }

  lemma StepSpansCarryNodes(sha: Sha, event: JobEvent)
    ensures CarryAll(sha, event.job.runId, event.job.runAttempt,
                     StepSpans(sha, event.job, event.defaultBranch, event.steps), StepNodes(event))
  {
    forall i | 0 <= i < |event.steps|
      ensures Carries(sha, event.job.runId, event.job.runAttempt,
                      StepSpans(sha, event.job, event.defaultBranch, event.steps)[i], StepNodes(event)[i])
    {
      StepSpanCarriesNode(sha, event.job, event.defaultBranch, event.steps[i]);
    }
  }

  lemma JobSpansCarryNodes(sha: Sha, event: JobEvent)
    ensures CarryAll(sha, event.job.runId, event.job.runAttempt, JobEventSpans(sha, event), JobEventNodes(event))
  {
    JobSpanCarriesNode(sha, event.job, event.steps);
    StepSpansCarryNodes(sha, event);
    CarryMore(sha, event.job.runId, event.job.runAttempt, [JobSpan(sha, event.job, event.steps)],
              [JobNode(event.job.name)], StepSpans(sha, event.job, event.defaultBranch, event.steps), StepNodes(event));
  }

  /** Events delivered separately agree on every identifier. */
  lemma {:induction false} SpansCarryNodes(sha: Sha, run: WorkflowRun, defaultBranch: string, events: seq<JobEvent>)
    requires OfAttempt(events, run.id, run.attempt)
    ensures CarryAll(sha, run.id, run.attempt, AttemptSpans(sha, run, defaultBranch, events), AttemptNodes(events))
    decreases |events|
  {
    if events != [] {
      var init, last := events[..|events| - 1], events[|events| - 1];
      SpansCarryNodes(sha, run, defaultBranch, init);
      JobSpansCarryNodes(sha, last);
      CarryMore(sha, run.id, run.attempt, AttemptSpans(sha, run, defaultBranch, init), AttemptNodes(init),
                JobEventSpans(sha, last), JobEventNodes(last));
    }
  }

  function JobNames(events: seq<JobEvent>): set<string> {
    set i | 0 <= i < |events| :: events[i].job.name
  }

  ghost predicate DistinctJobs(events: seq<JobEvent>) {
    forall i, j :: 0 <= i < j < |events| ==> events[i].job.name != events[j].job.name
  }

  ghost predicate DistinctSteps(events: seq<JobEvent>) {
    forall i, j, k :: 0 <= i < |events| && 0 <= j < k < |events[i].steps| ==>
      events[i].steps[j].number != events[i].steps[k].number
  }

  /** Step numbers are int64, and natural unless `signed`. */
  ghost predicate Numbers(events: seq<JobEvent>, signed: bool) {
    forall i, j :: 0 <= i < |events| && 0 <= j < |events[i].steps| ==> StepNumber(events[i].steps[j].number, signed)
  }

  lemma {:induction false} NodesOfJobs(events: seq<JobEvent>, i: nat, signed: bool)
    requires i < |AttemptNodes(events)|
    ensures AttemptNodes(events)[i].Root? || AttemptNodes(events)[i].job in JobNames(events)
    ensures Numbers(events, signed) ==> NodeOver(AttemptNodes(events)[i], JobNames(events), signed)
    decreases |events|
  {
    if events != [] {
      var init, last := events[..|events| - 1], events[|events| - 1];
      assert last.job.name in JobNames(events);
      assert forall n :: n in JobNames(init) ==> n in JobNames(events);
      assert Numbers(events, signed) ==> Numbers(init, signed);
      if i < |AttemptNodes(init)| {
        NodesOfJobs(init, i, signed);
      }
    }
  }

  lemma {:induction false} NodesDistinct(events: seq<JobEvent>)
    requires DistinctJobs(events) && DistinctSteps(events)
    ensures NoDup(AttemptNodes(events))
    decreases |events|
  {
    if events != [] {
      var init, last := events[..|events| - 1], events[|events| - 1];
      assert DistinctSteps(init) by {
        assert forall i :: 0 <= i < |init| ==> init[i] == events[i];
      }
      NodesDistinct(init);
      LastNodesDistinct(events);
      assert last.job.name !in JobNames(init);
      var earlier, own := AttemptNodes(init), JobEventNodes(last);
      forall i, j | 0 <= i < |earlier| && 0 <= j < |own|
        ensures earlier[i] != own[j]
      {
        NodesOfJobs(init, i, true);
      }
    }
  }

  lemma LastNodesDistinct(events: seq<JobEvent>)
    requires events != [] && DistinctSteps(events)
    ensures NoDup(JobEventNodes(events[|events| - 1]))
  {
  }

  lemma {:induction false} ParentListed(events: seq<JobEvent>, i: nat) returns (p: nat)
    requires i < |AttemptNodes(events)| && !AttemptNodes(events)[i].Root?
    ensures p < i && Parent(AttemptNodes(events)[i]) == Some(AttemptNodes(events)[p])
    decreases |events|
  {
    p := 0;
    if events != [] {
      var init := events[..|events| - 1];
      var n := |AttemptNodes(init)|;
      if i < n {
        p := ParentListed(init, i);
      } else if i == n {
        RootFirst(init);
      } else {
        p := n;
      }
    }
  }

  lemma {:induction false} RootFirst(events: seq<JobEvent>)
    ensures AttemptNodes(events) != [] && AttemptNodes(events)[0] == Root
    decreases |events|
  {
    if events != [] {
      RootFirst(events[..|events| - 1]);
    }
  }

  /** One trace, no identifier twice, a first span without parent, and every other under an earlier one. */
  ghost predicate IsTree(spans: seq<Span>, traceId: seq<Byte>) {
    && spans != [] && spans[0].parentId == None
    && (forall i :: 0 <= i < |spans| ==> spans[i].traceId == traceId)
    && (forall i, j :: 0 <= i < j < |spans| ==> spans[i].spanId != spans[j].spanId)
    && forall i :: 0 < i < |spans| ==> UnderEarlier(spans, i)
  }

  ghost predicate UnderEarlier(spans: seq<Span>, i: nat)
    requires i < |spans|
  {
    exists p :: 0 <= p < i && spans[i].parentId == Some(spans[p].spanId)
  }

  lemma NodesAreOverJobs(events: seq<JobEvent>, signed: bool)
    requires Numbers(events, signed)
    ensures NodesOver(AttemptNodes(events), JobNames(events), signed)
  {
    forall i | 0 <= i < |AttemptNodes(events)|
      ensures NodeOver(AttemptNodes(events)[i], JobNames(events), signed)
    {
      NodesOfJobs(events, i, signed);
    }
  }

  lemma CarriedTree(sha: Sha, id: int, attempt: int, spans: seq<Span>, events: seq<JobEvent>)
    requires CarryAll(sha, id, attempt, spans, AttemptNodes(events)) && NoDup(AttemptNodes(events))
    requires SpanIdsDistinct(sha, id, attempt, AttemptNodes(events))
    ensures IsTree(spans, TraceId(sha, id, attempt))
  {
    var nodes := AttemptNodes(events);
    RootFirst(events);
    forall i, j | 0 <= i < j < |spans|
      ensures spans[i].spanId != spans[j].spanId
    {
      assert Carries(sha, id, attempt, spans[i], nodes[i]) && Carries(sha, id, attempt, spans[j], nodes[j]);
    }
    forall i | 0 < i < |spans|
      ensures UnderEarlier(spans, i)
    {
      assert nodes[i] != nodes[0];
      var p := ParentListed(events, i);
      assert Carries(sha, id, attempt, spans[i], nodes[i]) && Carries(sha, id, attempt, spans[p], nodes[p]);
    }
  }

  /**
   * The spans of one attempt, however its events were delivered, form one tree under the run's span, if the names
   * of its jobs are separable and the digest does not collide on two of these spans.
   */
  lemma AttemptIsTree(sha: Sha, run: WorkflowRun, defaultBranch: string, events: seq<JobEvent>, signed: bool)
    requires OfAttempt(events, run.id, run.attempt)
    requires DistinctJobs(events) && DistinctSteps(events) && Numbers(events, signed)
    requires SeparableNames(JobNames(events), signed)
    requires NoDigestCollision(sha, run.id, run.attempt, AttemptNodes(events))
    ensures IsTree(AttemptSpans(sha, run, defaultBranch, events), TraceId(sha, run.id, run.attempt))
  {
    SpansCarryNodes(sha, run, defaultBranch, events);
    NodesDistinct(events);
    NodesAreOverJobs(events, signed);
    SeparableIdsDistinct(sha, run.id, run.attempt, AttemptNodes(events), JobNames(events), signed);
    CarriedTree(sha, run.id, run.attempt, AttemptSpans(sha, run, defaultBranch, events), events);
  }

  /**
   * Nothing is asked of the digest that some function cannot give: every such attempt of at most 256 spans is a
   * tree.
   */
  lemma SomeDigestGivesTree(run: WorkflowRun, defaultBranch: string, events: seq<JobEvent>, signed: bool)
    returns (sha: Sha)
    requires OfAttempt(events, run.id, run.attempt)
    requires DistinctJobs(events) && DistinctSteps(events) && Numbers(events, signed)
    requires SeparableNames(JobNames(events), signed) && |AttemptNodes(events)| <= 256
    ensures NoDigestCollision(sha, run.id, run.attempt, AttemptNodes(events))
    ensures IsTree(AttemptSpans(sha, run, defaultBranch, events), TraceId(sha, run.id, run.attempt))
  {
    sha := NumberingDigest(SpanTexts(run.id, run.attempt, AttemptNodes(events)));
    CollisionsAvoidable(run.id, run.attempt, AttemptNodes(events));
    AttemptIsTree(sha, run, defaultBranch, events, signed);
  }

  /** An attempt with one job, "build", and one step is such an attempt. */
  lemma OneJobIsTree(run: WorkflowRun, defaultBranch: string, job: WorkflowJob, step: Step) returns (sha: Sha)
    requires job.runId == run.id && job.runAttempt == run.attempt && job.name == "build" && step.number == 1
    ensures var spans := AttemptSpans(sha, run, defaultBranch, [JobEvent(job, [step], None)]);
            |spans| == 3 && IsTree(spans, TraceId(sha, run.id, run.attempt))
  {
    var event := JobEvent(job, [step], None);
    var events := [event];
    assert events[..0] == [];
    assert AttemptNodes(events) == [Root] + JobEventNodes(event);
    assert JobNames(events) == {"build"};
    UnnumberedNames({"build"});
    sha := SomeDigestGivesTree(run, defaultBranch, events, false);
    SpansCarryNodes(sha, run, defaultBranch, events);
  }

  /** The link of a repeated attempt is the trace of the attempt before it, and that is not its own trace. */
  lemma LinkNamesPreviousAttempt(sha: Sha, run: WorkflowRun, previous: WorkflowRun, defaultBranch: string)
    requires previous.id == run.id && previous.attempt == run.attempt - 1
    requires run.previousAttemptUrl != "" && run.attempt > 1
    ensures RootSpan(sha, run, defaultBranch).links == [RootSpan(sha, previous, defaultBranch).traceId]
    ensures TraceText(previous.id, previous.attempt) != TraceText(run.id, run.attempt)
  {
    TraceTextUnique(run.id, previous.attempt, run.id, run.attempt);
  }
}
