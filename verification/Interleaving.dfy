// Concurrent handlers under one mutex: an interleaving semantics for the metrics handler.
//
// Every webhook request and every build-info tick runs a handler method in a thread of
// its own. A thread waits, acquires the mutex, makes its accesses to the shared caches
// and buffers one at a time, and releases. Any thread that can take a step may take it.
// The theorem is that every behaviour is a sequential run in lock order.
module Interleaving {
  import opened Basics
  import opened Telemetry
  import opened CacheKeys
  import opened Counters
  import opened CounterStreams
  import opened CountEvents
  import opened Histograms
  import opened Events
  import opened Engine

  /** Where a thread stands. Everything but Waiting and Done is inside the critical section. */
  datatype Pc =
    | Waiting(call: Call)
    | Entered(call: Call)
    | Seeding(call: Call, current: int, todo: seq<Pair>)
    | Emitting(call: Call)
    | Observing(call: Call, emission: seq<seq<Metric>>)
    | Sweeping(call: Call, emission: seq<seq<Metric>>)
    | Leaving(out: Outcome)
    | Done(out: Outcome)

  predicate Idle(pc: Pc) {
    pc.Waiting? || pc.Done?
  }

  /** A program point from which the thread makes another access to the shared state. */
  predicate Busy(pc: Pc) {
    match pc
    case Entered(_) => true
    case Seeding(call, _, _) => call.CountCall? && call.target.Some?
    case Emitting(_) => true
    case Observing(call, emission) => call.CountCall? && emission != []
    case Sweeping(call, _) => call.CountCall?
    case _ => false
  }

  /** One access to the shared state. */
  function Micro(s: HandlerState, pc: Pc): (r: (HandlerState, Pc))
    requires Busy(pc)
    ensures Busy(r.1) || r.1.Leaving?
    ensures Rank(r.1) < Rank(pc)
  {
    match pc
    case Entered(call) =>
      (match call
       case BuildInfoCall(now, version) =>
         (s.(buffers := s.buffers.RecordBuildInfo(s.config, now, 1, version)), Emitting(call))
       case BareCall => (s, Emitting(call))
       case CountCall(target, order, _, _) =>
         if target.None? then (s, Emitting(call))
         else
           var (counters, cur) := s.counters.Get(target.value.Key());
           (s.(counters := counters),
            Seeding(call, Loaded(cur), if cur.None? then Siblings(Hit(target.value, order)) else [])))
    case Seeding(call, current, todo) =>
      var t, now := call.target.value, call.clocks.now;
      if todo != [] then
        (s.(counters := s.counters.Add(KeyOf(t.Group(), todo[0]), 0),
            buffers := RecordSample(s.buffers, s.config, now, Sample(t.Sibling(todo[0]), 0))),
         pc.(todo := todo[1..]))
      else
        var value := WrapInt64(current + 1);
        (s.(counters := s.counters.Add(t.Key(), value),
            buffers := RecordSample(s.buffers, s.config, now, Sample(t, value))),
         Emitting(call))
    case Emitting(call) =>
      var emission := s.buffers.Emission();
      (s.(buffers := NO_POINTS),
       if !call.CountCall? then Leaving(Emitted(emission))
       else if emission == [] then Leaving(IndexPanic)
       else Observing(call, emission))
    case Observing(call, emission) =>
      var (observed, durations) := ObserveTiming(s, call.timing, call.clocks);
      (observed, Sweeping(call, emission[0 := emission[0] + durations]))
    case Sweeping(call, emission) =>
      (SweepHandler(s, call.clocks.sweptAt), Leaving(Emitted(emission)))
  }

  function Rank(pc: Pc): nat {
    match pc
    case Entered(call) => if call.CountCall? then 5 + |call.order| else 5
    case Seeding(_, _, todo) => 4 + |todo|
    case Emitting(_) => 3
    case Observing(_, _) => 2
    case Sweeping(_, _) => 1
    case _ => 0
  }

  /** Running the rest of a critical section without interruption. */
  function Finish(s: HandlerState, pc: Pc): (HandlerState, Outcome)
    requires Busy(pc) || pc.Leaving?
    decreases Rank(pc)
  {
    if pc.Leaving? then (s, pc.out)
    else
      var (s', pc') := Micro(s, pc);
      Finish(s', pc')
  }

  lemma FinishUnfold(s: HandlerState, pc: Pc)
    requires Busy(pc)
    ensures var (s', pc') := Micro(s, pc); Finish(s, pc) == Finish(s', pc')
  {
  }

  /** The state a seeding thread leaves when it turns to emitting. */
  function Seeded(s: HandlerState, t: Target, now: int, current: int, todo: seq<Pair>): HandlerState {
    var value := WrapInt64(current + 1);
    s.(counters := StoreZeros(s.counters, KeysAlong(t.Group(), todo)).Add(t.Key(), value),
       buffers := RecordSamples(s.buffers, s.config, now, Zeros(t, todo) + [Sample(t, value)]))
  }

  lemma SeededNone(s: HandlerState, t: Target, now: int, current: int)
    ensures var value := WrapInt64(current + 1);
            Seeded(s, t, now, current, []) ==
              s.(counters := s.counters.Add(t.Key(), value),
                 buffers := RecordSample(s.buffers, s.config, now, Sample(t, value)))
  {
    var last := Sample(t, WrapInt64(current + 1));
    var ks, samples := KeysAlong(t.Group(), []), Zeros(t, []) + [last];
    assert ks == [] && StoreZeros(s.counters, ks) == s.counters;
    assert samples == [last] && samples[1..] == [];
    assert RecordSamples(s.buffers, s.config, now, samples) == RecordSample(s.buffers, s.config, now, last);
  }

  lemma SeededSome(s: HandlerState, t: Target, now: int, current: int, todo: seq<Pair>)
    requires todo != []
    ensures Seeded(s, t, now, current, todo) ==
              Seeded(s.(counters := s.counters.Add(KeyOf(t.Group(), todo[0]), 0),
                        buffers := RecordSample(s.buffers, s.config, now, Sample(t.Sibling(todo[0]), 0))),
                     t, now, current, todo[1..])
  {
    var last := Sample(t, WrapInt64(current + 1));
    var ks, samples := KeysAlong(t.Group(), todo), Zeros(t, todo) + [last];
    assert ks[1..] == KeysAlong(t.Group(), todo[1..]);
    assert samples[0] == Sample(t.Sibling(todo[0]), 0);
    assert samples[1..] == Zeros(t, todo[1..]) + [last];
  }

  lemma {:induction false} FinishSeeding(s: HandlerState, call: Call, current: int, todo: seq<Pair>)
    requires call.CountCall? && call.target.Some?
    ensures Finish(s, Seeding(call, current, todo))
            == Finish(Seeded(s, call.target.value, call.clocks.now, current, todo), Emitting(call))
    decreases |todo|
  {
    FinishUnfold(s, Seeding(call, current, todo));
    if todo == [] {
      SeededNone(s, call.target.value, call.clocks.now, current);
    } else {
      SeededSome(s, call.target.value, call.clocks.now, current, todo);
      FinishSeeding(Micro(s, Seeding(call, current, todo)).0, call, current, todo[1..]);
    }
  }

  lemma FinishEmitting(s: HandlerState, call: Call)
    ensures Finish(s, Emitting(call)) ==
              var emission, drained := s.buffers.Emission(), s.(buffers := NO_POINTS);
              if !call.CountCall? then (drained, Emitted(emission))
              else if emission == [] then (drained, IndexPanic)
              else
                var (observed, durations) := ObserveTiming(drained, call.timing, call.clocks);
                (SweepHandler(observed, call.clocks.sweptAt), Emitted(emission[0 := emission[0] + durations]))
  {
    var (s1, pc1) := Micro(s, Emitting(call));
    if pc1.Observing? {
      var (s2, pc2) := Micro(s1, pc1);
      var (s3, pc3) := Micro(s2, pc2);
      assert Finish(s1, pc1) == Finish(s2, pc2) == Finish(s3, pc3);
    }
  }

  /** Undisturbed, the accesses of a critical section add up to the handler's step. */
  lemma FinishIsStep(s: HandlerState, call: Call)
    ensures Finish(s, Entered(call)) == Step(s, call)
  {
    var (s1, pc1) := Micro(s, Entered(call));
    if pc1.Seeding? {
      var t := call.target.value;
      FinishSeeding(s1, call, pc1.current, pc1.todo);
      CountedState(s, call);
      FinishEmitting(CountEvent(s, call.target, call.order, call.clocks.now), call);
    } else {
      FinishEmitting(s1, call);
    }
  }

  lemma CountedState(s: HandlerState, call: Call)
    requires call.CountCall? && call.target.Some?
    ensures var t := call.target.value;
            var (counters, cur) := s.counters.Get(t.Key());
            Seeded(s.(counters := counters), t, call.clocks.now, Loaded(cur), SeededPairs(s, t, call.order))
            == CountEvent(s, call.target, call.order, call.clocks.now)
  {
    var t := call.target.value;
    var value := WrapInt64(Loaded(s.counters.Get(t.Key()).1) + 1);
    SamplesAre(s, t, call.order, Sample(t, value));
    BumpIs(s, t, call.order, value);
  }

  // ---- The system ----

  /** `log` lists the threads in the order they took the lock. */
  datatype System = System(shared: HandlerState, owner: Option<nat>, threads: seq<Pc>, log: seq<nat>, clock: int)

  ghost predicate Init(s: System, config: Config, calls: seq<Call>) {
    && s.shared == NewHandler(config)
    && s.owner == None
    && s.log == []
    && |s.threads| == |calls|
    && forall t :: 0 <= t < |calls| ==> s.threads[t] == Pc.Waiting(calls[t])
  }

  /** The clock is read inside the critical section and never runs backwards. */
  predicate ReadsClock(call: Call, before: int, after: int) {
    if call.CountCall? then before <= call.clocks.seenAt <= call.clocks.sweptAt <= after else before <= after
  }

  ghost predicate Acquire(a: System, b: System, t: nat) {
    && t < |a.threads| && a.threads[t].Waiting? && a.owner.None?
    && ReadsClock(a.threads[t].call, a.clock, b.clock)
    && b == System(a.shared, Some(t), a.threads[t := Entered(a.threads[t].call)], a.log + [t], b.clock)
  }

  /** Nothing but the program point decides whether a thread may go on: it does not ask who has the lock. */
  ghost predicate Access(a: System, b: System, t: nat) {
    && t < |a.threads| && Busy(a.threads[t])
    && var (shared, pc) := Micro(a.shared, a.threads[t]);
       b == a.(shared := shared, threads := a.threads[t := pc])
  }

  ghost predicate Release(a: System, b: System, t: nat) {
    && t < |a.threads| && a.threads[t].Leaving?
    && b == a.(owner := None, threads := a.threads[t := Done(a.threads[t].out)])
  }

  ghost predicate Next(a: System, b: System) {
    exists t: nat :: Acquire(a, b, t) || Access(a, b, t) || Release(a, b, t)
  }

  ghost predicate Behaviour(run: seq<System>, config: Config, calls: seq<Call>) {
    && run != []
    && Init(run[0], config, calls)
    && forall i :: 0 <= i < |run| - 1 ==> Next(run[i], run[i + 1])
  }

  /** The calls in lock order. */
  function Logged(calls: seq<Call>, log: seq<nat>): (r: seq<Call>)
    requires forall i :: 0 <= i < |log| ==> log[i] < |calls|
    ensures |r| == |log|
    ensures forall i :: 0 <= i < |log| ==> r[i] == calls[log[i]]
  {
    seq(|log|, i requires 0 <= i < |log| => calls[log[i]])
  }

  ghost predicate LogOk(s: System, calls: seq<Call>) {
    && |s.threads| == |calls|
    && NoDup(s.log)
    && (forall i :: 0 <= i < |s.log| ==> s.log[i] < |calls|)
    && (forall t: nat :: t < |calls| ==> (t in s.log <==> !s.threads[t].Waiting?))
    && (forall t :: 0 <= t < |calls| && s.threads[t].Waiting? ==> s.threads[t].call == calls[t])
  }

  /** Nobody but the owner is inside the critical section. */
  ghost predicate Exclusive(s: System) {
    forall t: nat :: t < |s.threads| && s.owner != Some(t) ==> Idle(s.threads[t])
  }

  /** The shared state is the sequential run in lock order, up to the rest of the owner's critical section. */
  ghost predicate Sequential(s: System, config: Config, calls: seq<Call>)
    requires LogOk(s, calls)
  {
    match s.owner
    case None => s.shared == HandlerAfter(config, Logged(calls, s.log))
    case Some(t) =>
      && s.log != [] && s.log[|s.log| - 1] == t
      && (Busy(s.threads[t]) || s.threads[t].Leaving?)
      && Finish(s.shared, s.threads[t])
         == Step(HandlerAfter(config, Logged(calls, s.log[..|s.log| - 1])), calls[t])
  }

  /** Every finished thread has returned what it returns in the sequential run. */
  ghost predicate Answered(s: System, config: Config, calls: seq<Call>)
    requires LogOk(s, calls)
  {
    forall i :: 0 <= i < |s.log| && s.threads[s.log[i]].Done? ==>
      s.threads[s.log[i]].out == LastOutcome(config, Logged(calls, s.log[..i + 1]))
  }

  ghost predicate Timely(s: System, config: Config, calls: seq<Call>)
    requires LogOk(s, calls)
  {
    var ops := Ops(config, Logged(calls, s.log));
    ClockOrdered(ops) && forall i :: 0 <= i < |ops| ==> ops[i].at <= s.clock
  }

  ghost predicate Inv(s: System, config: Config, calls: seq<Call>) {
    LogOk(s, calls) && Exclusive(s) && Sequential(s, config, calls)
    && Answered(s, config, calls) && Timely(s, config, calls)
  }

  lemma InitInv(s: System, config: Config, calls: seq<Call>)
    requires Init(s, config, calls)
    ensures Inv(s, config, calls)
  {
    assert Logged(calls, []) == [];
    assert Ops(config, []) == [];
  }

  lemma LoggedSnoc(calls: seq<Call>, log: seq<nat>, t: nat)
    requires t < |calls| && forall i :: 0 <= i < |log| ==> log[i] < |calls|
    ensures Logged(calls, log + [t]) == Logged(calls, log) + [calls[t]]
    ensures (log + [t])[..|log|] == log
  {
  }

  lemma OpsTimely(config: Config, ops: seq<Op>, call: Call, before: int, after: int)
    requires ClockOrdered(ops) && forall i :: 0 <= i < |ops| ==> ops[i].at <= before
    requires ReadsClock(call, before, after)
    ensures ClockOrdered(ops + OpsOf(config, call))
    ensures forall i :: 0 <= i < |ops + OpsOf(config, call)| ==> (ops + OpsOf(config, call))[i].at <= after
  {
  }

  /** A step that finishes no thread and keeps the log, or extends it, keeps the answers. */
  lemma AnsweredFrame(a: System, b: System, config: Config, calls: seq<Call>)
    requires LogOk(a, calls) && LogOk(b, calls) && Answered(a, config, calls)
    requires a.log <= b.log
    requires forall t :: 0 <= t < |calls| && b.threads[t].Done? ==> a.threads[t] == b.threads[t]
    ensures Answered(b, config, calls)
  {
    forall i | 0 <= i < |b.log| && b.threads[b.log[i]].Done?
      ensures b.threads[b.log[i]].out == LastOutcome(config, Logged(calls, b.log[..i + 1]))
    {
      var t := b.log[i];
      assert !a.threads[t].Waiting?;
      assert t in a.log;
      var j :| 0 <= j < |a.log| && a.log[j] == t;
      assert b.log[j] == t;
      assert i == j;
      assert b.log[..i + 1] == a.log[..i + 1];
    }
  }

  lemma AcquireLog(a: System, b: System, t: nat, calls: seq<Call>)
    requires LogOk(a, calls) && Exclusive(a) && Acquire(a, b, t)
    ensures LogOk(b, calls) && Exclusive(b)
    ensures calls[t] == a.threads[t].call
  {
    assert t !in a.log;
  }

  lemma AcquireInv(a: System, b: System, t: nat, config: Config, calls: seq<Call>)
    requires Inv(a, config, calls) && Acquire(a, b, t)
    ensures Inv(b, config, calls)
  {
    AcquireLog(a, b, t, calls);
    AnsweredFrame(a, b, config, calls);
    AcquireSequential(a, b, t, config, calls);
    AcquireTimely(a, b, t, config, calls);
  }

  lemma AcquireSequential(a: System, b: System, t: nat, config: Config, calls: seq<Call>)
    requires LogOk(a, calls) && LogOk(b, calls) && Sequential(a, config, calls)
    requires Acquire(a, b, t) && calls[t] == a.threads[t].call
    ensures Sequential(b, config, calls)
  {
    LoggedSnoc(calls, a.log, t);
    FinishIsStep(a.shared, calls[t]);
    assert b.log[..|b.log| - 1] == a.log;
  }

  lemma AcquireTimely(a: System, b: System, t: nat, config: Config, calls: seq<Call>)
    requires LogOk(a, calls) && LogOk(b, calls) && Timely(a, config, calls)
    requires Acquire(a, b, t) && calls[t] == a.threads[t].call
    ensures Timely(b, config, calls)
  {
    LoggedSnoc(calls, a.log, t);
    var before := Logged(calls, a.log);
    assert (before + [calls[t]])[..|before|] == before;
    OpsTimely(config, Ops(config, before), calls[t], a.clock, b.clock);
  }

  lemma AccessLog(a: System, b: System, t: nat, shared: HandlerState, pc: Pc, calls: seq<Call>)
    requires LogOk(a, calls) && Exclusive(a) && t < |a.threads| && a.owner == Some(t)
    requires !a.threads[t].Waiting? && !Idle(pc)
    requires b == a.(shared := shared, threads := a.threads[t := pc])
    ensures LogOk(b, calls) && Exclusive(b)
  {
  }

  lemma AccessInv(a: System, b: System, t: nat, config: Config, calls: seq<Call>)
    requires Inv(a, config, calls) && Access(a, b, t)
    ensures Inv(b, config, calls)
  {
    var (shared, pc) := Micro(a.shared, a.threads[t]);
    AccessLog(a, b, t, shared, pc, calls);
    AnsweredFrame(a, b, config, calls);
    FinishUnfold(a.shared, a.threads[t]);
  }

  lemma ReleaseLog(a: System, b: System, t: nat, calls: seq<Call>)
    requires LogOk(a, calls) && Exclusive(a) && Release(a, b, t)
    ensures LogOk(b, calls) && Exclusive(b)
  {
  }

  /** What the released thread answers is what the sequential run answers at its place in the log. */
  lemma ReleaseAnswer(a: System, t: nat, config: Config, calls: seq<Call>)
    requires LogOk(a, calls) && Sequential(a, config, calls)
    requires t < |a.threads| && a.owner == Some(t) && a.threads[t].Leaving?
    ensures a.shared == HandlerAfter(config, Logged(calls, a.log))
    ensures a.threads[t].out == LastOutcome(config, Logged(calls, a.log))
  {
    var before := a.log[..|a.log| - 1];
    assert a.log == before + [t];
    LoggedSnoc(calls, before, t);
    HandlerSnoc(config, Logged(calls, before), calls[t]);
    assert Finish(a.shared, a.threads[t]) == (a.shared, a.threads[t].out);
  }

  lemma ReleaseAnswered(a: System, b: System, t: nat, config: Config, calls: seq<Call>)
    requires LogOk(a, calls) && LogOk(b, calls) && Answered(a, config, calls)
    requires a.log != [] && a.log[|a.log| - 1] == t && a.threads[t].Leaving?
    requires b == a.(owner := None, threads := a.threads[t := Done(a.threads[t].out)])
    requires a.threads[t].out == LastOutcome(config, Logged(calls, a.log))
    ensures Answered(b, config, calls)
  {
    forall i | 0 <= i < |b.log| && b.threads[b.log[i]].Done?
      ensures b.threads[b.log[i]].out == LastOutcome(config, Logged(calls, b.log[..i + 1]))
    {
      if i == |a.log| - 1 {
        assert b.log[..i + 1] == a.log;
      } else {
        assert b.log[i] != t;
      }
    }
  }

  lemma ReleaseInv(a: System, b: System, t: nat, config: Config, calls: seq<Call>)
    requires Inv(a, config, calls) && Release(a, b, t)
    ensures Inv(b, config, calls)
  {
    ReleaseLog(a, b, t, calls);
    ReleaseAnswer(a, t, config, calls);
    ReleaseAnswered(a, b, t, config, calls);
  }

  /** Mutual exclusion and linearisability: every reachable state is explained by the run in lock order. */
  lemma {:induction false} Reachable(run: seq<System>, config: Config, calls: seq<Call>)
    requires Behaviour(run, config, calls)
    ensures Inv(run[|run| - 1], config, calls)
    decreases |run|
  {
    if |run| == 1 {
      InitInv(run[0], config, calls);
    } else {
      var n := |run| - 1;
      Reachable(run[..n], config, calls);
      var a, b := run[n - 1], run[n];
      assert Next(run[n - 1], run[n - 1 + 1]);
      var t: nat :| Acquire(a, b, t) || Access(a, b, t) || Release(a, b, t);
      if Acquire(a, b, t) {
        AcquireInv(a, b, t, config, calls);
      } else if Access(a, b, t) {
        AccessInv(a, b, t, config, calls);
      } else {
        ReleaseInv(a, b, t, config, calls);
      }
    }
  }
}
