// The interleaved handler never gets stuck, and every behaviour ends.
module Progress {
  import opened Basics
  import opened Engine
  import opened Interleaving
  import opened Concurrency
  import Telemetry

  /**
   * In every reachable state the thread that has the lock can go on; and when nobody has it, every waiting thread
   * whose clock readings do not lie in the past can take it.
   */
  lemma NeverStuck(run: seq<System>, config: Telemetry.Config, calls: seq<Call>, t: nat)
    requires Behaviour(run, config, calls) && t < |run[|run| - 1].threads|
    ensures var s := run[|run| - 1];
            && (s.owner == Some(t) ==> exists next :: Access(s, next, t) || Release(s, next, t))
            && (s.owner == None && s.threads[t].Waiting? ==>
                  forall clock :: ReadsClock(s.threads[t].call, s.clock, clock) ==> exists next :: Acquire(s, next, t))
  {
    var s := run[|run| - 1];
    Reachable(run, config, calls);
    if s.owner == Some(t) {
      OwnerMoves(s, t);
    } else if s.owner == None && s.threads[t].Waiting? {
      forall clock | ReadsClock(s.threads[t].call, s.clock, clock)
        ensures exists next :: Acquire(s, next, t)
      {
        WaiterEnters(s, t, clock);
      }
    }
  }

  lemma WaiterEnters(s: System, t: nat, clock: int)
    requires t < |s.threads| && s.threads[t].Waiting? && s.owner == None
    requires ReadsClock(s.threads[t].call, s.clock, clock)
    ensures exists next :: Acquire(s, next, t)
  {
    var pc := Entered(s.threads[t].call);
    assert Acquire(s, System(s.shared, Some(t), s.threads[t := pc], s.log + [t], clock), t);
  }

  lemma OwnerMoves(s: System, t: nat)
    requires t < |s.threads| && (Busy(s.threads[t]) || s.threads[t].Leaving?)
    ensures exists next :: Access(s, next, t) || Release(s, next, t)
  {
    if Busy(s.threads[t]) {
      var (shared, pc) := Micro(s.shared, s.threads[t]);
      assert Access(s, s.(shared := shared, threads := s.threads[t := pc]), t);
    } else {
      assert Release(s, s.(owner := None, threads := s.threads[t := Done(s.threads[t].out)]), t);
    }
  }

  // ---- No deadlock ----
  //
  // A call carries the clock readings it will take, although it takes them only once it has the lock. So the
  // readings of threads that still wait are not part of what has happened: they may be replaced by later ones.

  /** The call with its readings taken at the given time. */
  function ReadAt(call: Call, clock: int): Call {
    if call.CountCall? then call.(clocks := Clocks(clock, clock, clock, clock)) else call
  }

  /** The calls, with the readings of those that wait in `end` taken at its time. */
  function Retimed(calls: seq<Call>, end: System): (r: seq<Call>)
    requires |end.threads| == |calls|
    ensures |r| == |calls|
    ensures forall t :: 0 <= t < |calls| ==>
              r[t] == if end.threads[t].Waiting? then ReadAt(calls[t], end.clock) else calls[t]
  {
    seq(|calls|, t requires 0 <= t < |calls| =>
      if end.threads[t].Waiting? then ReadAt(calls[t], end.clock) else calls[t])
  }

  /** A state of the same behaviour, with the readings of those that wait in `end` replaced. */
  function WithReadings(s: System, end: System): (r: System)
    requires |s.threads| == |end.threads|
    ensures r == s.(threads := r.threads) && |r.threads| == |s.threads|
    ensures forall t :: 0 <= t < |s.threads| ==>
              r.threads[t] == if end.threads[t].Waiting? && s.threads[t].Waiting?
                              then Pc.Waiting(ReadAt(s.threads[t].call, end.clock)) else s.threads[t]
  {
    s.(threads := seq(|s.threads|, t requires 0 <= t < |s.threads| =>
      if end.threads[t].Waiting? && s.threads[t].Waiting?
      then Pc.Waiting(ReadAt(s.threads[t].call, end.clock)) else s.threads[t]))
  }

  /** Threads that wait later have been waiting before. */
  ghost predicate WaitsBefore(a: System, b: System) {
    |a.threads| == |b.threads| && forall t :: 0 <= t < |b.threads| && b.threads[t].Waiting? ==> a.threads[t].Waiting?
  }

  lemma StepWaitsBefore(a: System, b: System)
    requires Next(a, b)
    ensures WaitsBefore(a, b)
  {
    var t: nat :| Acquire(a, b, t) || Access(a, b, t) || Release(a, b, t);
  }

  lemma {:induction false} RunWaitsBefore(run: seq<System>, i: nat)
    requires i < |run| && forall j :: 0 <= j < |run| - 1 ==> Next(run[j], run[j + 1])
    ensures WaitsBefore(run[i], run[|run| - 1])
    decreases |run| - i
  {
    if i < |run| - 1 {
      assert Next(run[i], run[i + 1]);
      StepWaitsBefore(run[i], run[i + 1]);
      RunWaitsBefore(run, i + 1);
    }
  }

  /** Steps are made by threads that do not wait afterwards, so other readings of those that do change none. */
  lemma StepWithReadings(a: System, b: System, end: System)
    requires Next(a, b) && WaitsBefore(b, end) && |a.threads| == |end.threads|
    ensures Next(WithReadings(a, end), WithReadings(b, end))
  {
    var t: nat :| Acquire(a, b, t) || Access(a, b, t) || Release(a, b, t);
    var a', b' := WithReadings(a, end), WithReadings(b, end);
    assert !b.threads[t].Waiting? && !end.threads[t].Waiting?;
    assert a'.threads[t] == a.threads[t] && b'.threads[t] == b.threads[t];
    assert b.threads == a.threads[t := b.threads[t]];
    assert b'.threads == a'.threads[t := b.threads[t]];
    assert (Acquire(a, b, t) ==> Acquire(a', b', t)) && (Access(a, b, t) ==> Access(a', b', t))
        && (Release(a, b, t) ==> Release(a', b', t));
  }

  /** The whole behaviour with the readings of the threads that wait at its end replaced. */
  lemma RunWithReadings(run: seq<System>, config: Telemetry.Config, calls: seq<Call>) returns (run': seq<System>)
    requires Behaviour(run, config, calls)
    ensures var end := run[|run| - 1];
            && |end.threads| == |calls|
            && Behaviour(run', config, Retimed(calls, end)) && |run'| == |run|
            && run'[|run'| - 1] == WithReadings(end, end)
  {
    var end := run[|run| - 1];
    RunWaitsBefore(run, 0);
    forall i | 0 <= i < |run|
      ensures |run[i].threads| == |end.threads|
    {
      RunWaitsBefore(run, i);
    }
    run' := seq(|run|, i requires 0 <= i < |run| => WithReadings(run[i], end));
    forall i | 0 <= i < |run'| - 1
      ensures Next(run'[i], run'[i + 1])
    {
      RunWaitsBefore(run, i + 1);
      StepWithReadings(run[i], run[i + 1], end);
    }
  }

  /** Unless all threads are done some thread can move, once the waiting ones read the clock now. */
  lemma SomebodyMoves(s: System)
    requires forall t :: 0 <= t < |s.threads| && s.threads[t].Waiting? ==>
               ReadsClock(s.threads[t].call, s.clock, s.clock)
    requires match s.owner
             case None => exists t: nat :: t < |s.threads| && s.threads[t].Waiting?
             case Some(t) => t < |s.threads| && (Busy(s.threads[t]) || s.threads[t].Leaving?)
    ensures exists next :: Next(s, next)
  {
    match s.owner
    case None =>
      var t: nat :| t < |s.threads| && s.threads[t].Waiting?;
      WaiterEnters(s, t, s.clock);
      var next :| Acquire(s, next, t);
      assert Next(s, next);
    case Some(t) =>
      OwnerMoves(s, t);
      var next :| Access(s, next, t) || Release(s, next, t);
      assert Next(s, next);
  }

  /**
   * No deadlock: a behaviour that has not finished can go on, with the threads that still wait reading the clock
   * when they get the lock. What has happened so far stays as it is.
   */
  lemma NoDeadlock(run: seq<System>, config: Telemetry.Config, calls: seq<Call>)
    returns (run': seq<System>, next: System)
    requires Behaviour(run, config, calls) && !Finished(run[|run| - 1])
    ensures var end := run[|run| - 1];
            && |end.threads| == |calls|
            && Behaviour(run' + [next], config, Retimed(calls, end)) && |run'| == |run|
            && run'[|run'| - 1] == WithReadings(end, end)
  {
    var end := run[|run| - 1];
    run' := RunWithReadings(run, config, calls);
    var s := run'[|run'| - 1];
    Reachable(run, config, calls);
    Unfinished(end, config, calls);
    SomebodyMoves(s);
    next :| Next(s, next);
    var all := run' + [next];
    forall i | 0 <= i < |all| - 1
      ensures Next(all[i], all[i + 1])
    {
      if i < |run'| - 1 {
        assert all[i] == run'[i] && all[i + 1] == run'[i + 1];
      }
    }
  }

  /** What the invariant says about a state that is not finished, whatever the waiting threads read. */
  lemma Unfinished(end: System, config: Telemetry.Config, calls: seq<Call>)
    requires Inv(end, config, calls) && !Finished(end)
    ensures var s := WithReadings(end, end);
            && (forall t :: 0 <= t < |s.threads| && s.threads[t].Waiting? ==>
                  ReadsClock(s.threads[t].call, s.clock, s.clock))
            && match s.owner
               case None => exists t: nat :: t < |s.threads| && s.threads[t].Waiting?
               case Some(t) => t < |s.threads| && (Busy(s.threads[t]) || s.threads[t].Leaving?)
  {
    var t: nat :| t < |end.threads| && !end.threads[t].Done?;
    var s := WithReadings(end, end);
    if end.owner == None {
      assert Idle(end.threads[t]) && s.threads[t].Waiting?;
    }
  }

  // ---- Every behaviour ends ----

  /** A bound on the steps a thread still has to take. */
  function Work(pc: Pc): nat {
    match pc
    case Waiting(call) => Rank(Entered(call)) + 2
    case Done(_) => 0
    case _ => Rank(pc) + 1
  }

  function TotalWork(s: System): nat {
    Sum(Work, s.threads)
  }

  lemma SumUpdate<T>(w: T -> nat, s: seq<T>, i: nat, x: T)
    requires i < |s|
    ensures Sum(w, s[i := x]) + w(s[i]) == Sum(w, s) + w(x)
  {
    var a, b := s[..i], s[i + 1..];
    assert s == a + ([s[i]] + b) && s[i := x] == a + ([x] + b);
    SumAppend(w, a, [s[i]] + b);
    SumAppend(w, [s[i]], b);
    SumAppend(w, a, [x] + b);
    SumAppend(w, [x], b);
    SumOne(w, s[i]);
    SumOne(w, x);
  }

  lemma EveryStepWorks(a: System, b: System)
    requires Next(a, b)
    ensures TotalWork(b) < TotalWork(a)
  {
    var t: nat :| Acquire(a, b, t) || Access(a, b, t) || Release(a, b, t);
    SumUpdate(Work, a.threads, t, b.threads[t]);
    if Access(a, b, t) {
      var (shared, pc) := Micro(a.shared, a.threads[t]);
      assert Work(pc) < Work(a.threads[t]);
    }
  }

  /** No behaviour of the calls is longer than the work there is at its start. */
  lemma {:induction false} BehavioursEnd(run: seq<System>, config: Telemetry.Config, calls: seq<Call>)
    requires Behaviour(run, config, calls)
    ensures |run| - 1 + TotalWork(run[|run| - 1]) <= TotalWork(run[0])
    decreases |run|
  {
    if |run| > 1 {
      var n := |run| - 1;
      BehavioursEnd(run[..n], config, calls);
      assert run[n - 1] == run[..n][n - 1] && Next(run[n - 1], run[n - 1 + 1]);
      EveryStepWorks(run[n - 1], run[n]);
    }
  }
}
