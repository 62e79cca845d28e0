// What linearisability means for the metrics: no increment is lost, and every caller
// gets an answer of the sequential algorithms.
module Concurrency {
  import opened Basics
  import Telemetry
  import opened CacheKeys
  import opened Counters
  import opened CountEvents
  import opened Histograms
  import opened Engine
  import opened Interleaving

  // ---- The order of the calls does not matter to the counters ----

  /** The contact a call makes, if any. */
  function ContactOfCall(call: Call): seq<Contact> {
    if HitsOf(call) == [] then [] else [ContactOf(HitsOf(call)[0])]
  }

  /** The contacts a run of calls makes. */
  function ContactsOf(calls: seq<Call>): seq<Contact> {
    Contacts(Hits(calls))
  }

  /** The number of events a call contributes to a key. */
  function KeyWeight(k: string): Call -> nat {
    (call: Call) => KeyHits(ContactOfCall(call), k)
  }

  function KeyHits(c: seq<Contact>, k: string): nat {
    if c != [] && c[0].key == k then 1 else 0
  }

  /** The number of events a call contributes to a group. */
  function GroupWeight(g: Group): Call -> nat {
    (call: Call) => GroupHits(ContactOfCall(call), g)
  }

  function GroupHits(c: seq<Contact>, g: Group): nat {
    if c != [] && c[0].group == g then 1 else 0
  }

  lemma ContactsOfSnoc(calls: seq<Call>, call: Call)
    ensures ContactsOf(calls + [call]) == ContactsOf(calls) + ContactOfCall(call)
    ensures |ContactOfCall(call)| <= 1
  {
    assert (calls + [call])[..|calls|] == calls;
    if HitsOf(call) == [] {
      assert Hits(calls + [call]) == Hits(calls);
    } else {
      ContactsSnoc(Hits(calls), HitsOf(call)[0]);
    }
  }

  lemma AppendContact(run: seq<Contact>, c: seq<Contact>, k: string, g: Group)
    requires |c| <= 1
    ensures CountOf(run + c, k) == CountOf(run, k) + KeyHits(c, k)
    ensures g in Groups(run + c) <==> g in Groups(run) || GroupHits(c, g) > 0
  {
    if c == [] {
      assert run + c == run;
    } else {
      assert c == [c[0]];
      Snoc(run, c[0]);
    }
  }

  lemma WeightSnoc(calls: seq<Call>, last: Call, k: string, g: Group)
    ensures Sum(KeyWeight(k), calls + [last]) == Sum(KeyWeight(k), calls) + KeyHits(ContactOfCall(last), k)
    ensures Sum(GroupWeight(g), calls + [last]) == Sum(GroupWeight(g), calls) + GroupHits(ContactOfCall(last), g)
  {
    SumAppend(KeyWeight(k), calls, [last]);
    SumOne(KeyWeight(k), last);
    SumAppend(GroupWeight(g), calls, [last]);
    SumOne(GroupWeight(g), last);
  }

  lemma ContactSnoc(calls: seq<Call>, last: Call, k: string, g: Group)
    ensures CountOf(ContactsOf(calls + [last]), k) == CountOf(ContactsOf(calls), k) + KeyHits(ContactOfCall(last), k)
    ensures g in Groups(ContactsOf(calls + [last]))
            <==> g in Groups(ContactsOf(calls)) || GroupHits(ContactOfCall(last), g) > 0
  {
    ContactsOfSnoc(calls, last);
    AppendContact(ContactsOf(calls), ContactOfCall(last), k, g);
  }

  /** Counting contacts is summing what the calls contribute. */
  ghost predicate CountedBySums(calls: seq<Call>, k: string, g: Group) {
    && CountOf(ContactsOf(calls), k) == Sum(KeyWeight(k), calls)
    && (g in Groups(ContactsOf(calls)) <==> Sum(GroupWeight(g), calls) > 0)
  }

  lemma CountedSnoc(calls: seq<Call>, last: Call, k: string, g: Group)
    requires CountedBySums(calls, k, g)
    ensures CountedBySums(calls + [last], k, g)
  {
    ContactSnoc(calls, last, k, g);
    WeightSnoc(calls, last, k, g);
  }

  lemma CountedNone(k: string, g: Group)
    ensures CountedBySums([], k, g)
  {
  }

  lemma {:induction false} CountsAreSums(calls: seq<Call>, k: string, g: Group)
    ensures CountedBySums(calls, k, g)
    decreases |calls|
  {
    if calls == [] {
      CountedNone(k, g);
    } else {
      var init, last := calls[..|calls| - 1], calls[|calls| - 1];
      assert calls == init + [last];
      CountsAreSums(init, k, g);
      CountedSnoc(init, last, k, g);
    }
  }

  lemma SameCallsSameCount(a: seq<Call>, b: seq<Call>, k: string, g: Group)
    requires multiset(a) == multiset(b)
    ensures CountOf(ContactsOf(a), k) == CountOf(ContactsOf(b), k)
    ensures g in Groups(ContactsOf(a)) <==> g in Groups(ContactsOf(b))
  {
    CountsAreSums(a, k, g);
    CountsAreSums(b, k, g);
    SumPermuted(KeyWeight(k), a, b);
    SumPermuted(GroupWeight(g), a, b);
  }

  lemma SameCallsSameCounts(a: seq<Call>, b: seq<Call>)
    requires multiset(a) == multiset(b)
    ensures multiset(KeySeq(ContactsOf(a))) == multiset(KeySeq(ContactsOf(b)))
    ensures Groups(ContactsOf(a)) == Groups(ContactsOf(b))
  {
    var any := Group("", true);
    var ma, mb := multiset(KeySeq(ContactsOf(a))), multiset(KeySeq(ContactsOf(b)));
    forall k
      ensures ma[k] == mb[k]
    {
      SameCallsSameCount(a, b, k, any);
    }
    assert ma == mb;
    forall g
      ensures g in Groups(ContactsOf(a)) <==> g in Groups(ContactsOf(b))
    {
      SameCallsSameCount(a, b, "", g);
    }
  }

  lemma RunOfValidCalls(calls: seq<Call>)
    requires ValidCalls(calls)
    ensures ValidRun(ContactsOf(calls))
  {
    HitsValid(calls);
    ContactsProps(Hits(calls));
  }

  /** Sequential runs of the same calls in any two orders leave the same counters. */
  lemma AnyOrderSameCounters(config: Telemetry.Config, a: seq<Call>, b: seq<Call>)
    requires ValidCalls(a) && ValidCalls(b) && multiset(a) == multiset(b)
    requires |Groups(ContactsOf(a))| <= 2500
    ensures HandlerAfter(config, a).counters.items == HandlerAfter(config, b).counters.items
  {
    SameCallsSameCounts(a, b);
    RunOfValidCalls(a);
    RunOfValidCalls(b);
    OrderIndependent(ContactsOf(a), ContactsOf(b));
    CountersAfter(config, a);
    CountersAfter(config, b);
  }

  // ---- Behaviours ----

  ghost predicate Finished(s: System) {
    forall t :: 0 <= t < |s.threads| ==> s.threads[t].Done?
  }

  lemma LoggedWithout(calls: seq<Call>, log: seq<nat>, j: nat)
    requires calls != [] && j < |log| && log[j] == |calls| - 1
    requires forall i :: 0 <= i < |log| ==> log[i] < |calls| && (i != j ==> log[i] < |calls| - 1)
    ensures var rest := log[..j] + log[j + 1..];
            && (forall i :: 0 <= i < |rest| ==> rest[i] < |calls| - 1)
            && multiset(Logged(calls, log))
               == multiset(Logged(calls[..|calls| - 1], rest)) + multiset{calls[|calls| - 1]}
  {
    var n := |calls| - 1;
    var l, rest := Logged(calls, log), log[..j] + log[j + 1..];
    var m, without := Logged(calls[..n], rest), l[..j] + l[j + 1..];
    assert |m| == |without|;
    forall i | 0 <= i < |rest|
      ensures m[i] == without[i]
    {
      var i' := if i < j then i else i + 1;
      assert rest[i] == log[i'] && m[i] == calls[log[i']];
      assert without[i] == l[i'];
    }
    assert m == without;
    RemoveAt(l, j);
  }

  lemma SomeEntry(log: seq<nat>)
    ensures log == [] || exists i :: 0 <= i < |log| && log[i] >= 0
  {
    if log != [] {
      assert log[0] >= 0;
    }
  }

  lemma {:induction false} LoggedIsPermutation(calls: seq<Call>, log: seq<nat>)
    requires NoDup(log) && (forall i :: 0 <= i < |log| ==> log[i] < |calls|)
    requires forall t: nat :: t < |calls| ==> t in log
    ensures multiset(Logged(calls, log)) == multiset(calls)
    decreases |calls|
  {
    if calls == [] {
      SomeEntry(log);
    } else {
      var n: nat := |calls| - 1;
      assert n in log;
      var j :| 0 <= j < |log| && log[j] == n;
      LogWithoutLast(log, j, n);
      LoggedWithout(calls, log, j);
      LoggedIsPermutation(calls[..n], log[..j] + log[j + 1..]);
      RemoveAt(calls, n);
      assert calls[..n] + calls[n + 1..] == calls[..n];
    }
  }

  lemma LogWithoutLast(log: seq<nat>, j: nat, n: nat)
    requires NoDup(log) && j < |log| && log[j] == n
    requires forall i :: 0 <= i < |log| ==> log[i] <= n
    requires forall t: nat :: t <= n ==> t in log
    ensures var rest := log[..j] + log[j + 1..];
            && NoDup(rest) && (forall i :: 0 <= i < |rest| ==> rest[i] < n)
            && forall t: nat :: t < n ==> t in rest
  {
    var rest := log[..j] + log[j + 1..];
    forall i | 0 <= i < |rest|
      ensures rest[i] == log[if i < j then i else i + 1] && rest[i] < n
    {
    }
    forall t: nat | t < n
      ensures t in rest
    {
      assert t in log;
      var i :| 0 <= i < |log| && log[i] == t;
      assert rest[if i < j then i else i - 1] == t;
    }
  }

  lemma LoggedValid(calls: seq<Call>, log: seq<nat>)
    requires ValidCalls(calls) && forall i :: 0 <= i < |log| ==> log[i] < |calls|
    ensures ValidCalls(Logged(calls, log))
  {
  }

  lemma OwnerInside(s: System, config: Telemetry.Config, calls: seq<Call>)
    requires LogOk(s, calls) && Sequential(s, config, calls)
    ensures s.owner.Some? ==> s.owner.value < |s.threads| && !s.threads[s.owner.value].Done?
    ensures s.owner.None? ==> s.shared == HandlerAfter(config, Logged(calls, s.log))
  {
  }

  lemma FinishedLog(s: System, calls: seq<Call>)
    requires LogOk(s, calls) && Finished(s)
    ensures multiset(Logged(calls, s.log)) == multiset(calls)
  {
    forall t: nat | t < |calls|
      ensures t in s.log
    {
      assert s.threads[t].Done?;
    }
    LoggedIsPermutation(calls, s.log);
  }

  lemma FinishedState(s: System, config: Telemetry.Config, calls: seq<Call>)
    requires Inv(s, config, calls) && Finished(s)
    ensures s.shared == HandlerAfter(config, Logged(calls, s.log))
    ensures multiset(Logged(calls, s.log)) == multiset(calls)
  {
    OwnerInside(s, config, calls);
    FinishedLog(s, calls);
  }

  /**
   * No increment is lost: when all threads of any behaviour over at most 2500 groups have finished, the
   * counters are those of the same calls handled one after the other, in whatever order.
   */
  lemma NoLostIncrement(run: seq<System>, config: Telemetry.Config, calls: seq<Call>, order: seq<Call>)
    requires Behaviour(run, config, calls) && Finished(run[|run| - 1])
    requires ValidCalls(calls) && ValidCalls(order) && multiset(order) == multiset(calls)
    requires |Groups(ContactsOf(calls))| <= 2500
    ensures run[|run| - 1].shared.counters.items == HandlerAfter(config, order).counters.items
  {
    var s := run[|run| - 1];
    Reachable(run, config, calls);
    FinishedState(s, config, calls);
    LoggedValid(calls, s.log);
    SameCallsSameCounts(calls, Logged(calls, s.log));
    AnyOrderSameCounters(config, Logged(calls, s.log), order);
  }

  /** What a call returns after the calls `before`: its own report and nothing of theirs. */
  function Answer(config: Telemetry.Config, before: seq<Call>, call: Call): Outcome {
    match call
    case BuildInfoCall(now, version) =>
      Emitted(if config.buildInfoEnabled then [[InfoMetric(config, now, version)]] else [])
    case BareCall => Emitted([])
    case CountCall(_, _, _, _) =>
      if Reports?(config, call) then
        Emitted([CountMetrics(config, CacheAfter(ContactsOf(before)), HistAfter(Ops(config, before)), call)])
      else
        IndexPanic
  }

  function InfoMetric(config: Telemetry.Config, now: int, version: string): Telemetry.Metric {
    Telemetry.BuildInfoGauge([Telemetry.Point(config.startTime, now, 1, Telemetry.BuildInfoAttributes(version))])
  }

  lemma UncountedAnswer(config: Telemetry.Config, s: HandlerState, before: seq<Call>, call: Call)
    requires s.buffers == Telemetry.NO_POINTS && s.config == config && !call.CountCall?
    ensures Step(s, call).1 == Answer(config, before, call)
  {
    if call.BuildInfoCall? && config.buildInfoEnabled {
      var recorded := s.buffers.RecordBuildInfo(config, call.now, 1, call.version);
      var metric := InfoMetric(config, call.now, call.version);
      assert recorded.info == metric.points;
      assert recorded.Metrics() == [metric];
    }
  }

  lemma SequentialAnswer(config: Telemetry.Config, before: seq<Call>, call: Call)
    ensures LastOutcome(config, before + [call]) == Answer(config, before, call)
  {
    BuffersDrained(config, before);
    HandlerSnoc(config, before, call);
    if Reports?(config, call) {
      CountOutcome(config, before, call);
    } else if call.CountCall? {
      StepEffect(HandlerAfter(config, before), call);
    } else {
      UncountedAnswer(config, HandlerAfter(config, before), before, call);
    }
  }

  /**
   * In every behaviour, finished or not, the clock readings of the observations and sweeps are in order, and
   * each finished thread has returned what it returns in the sequential run at its place in lock order.
   */
  lemma AnswersAreSequential(run: seq<System>, config: Telemetry.Config, calls: seq<Call>)
    requires Behaviour(run, config, calls)
    ensures var s := run[|run| - 1];
            && LogOk(s, calls)
            && ClockOrdered(Ops(config, Logged(calls, s.log)))
            && forall i :: 0 <= i < |s.log| && s.threads[s.log[i]].Done? ==>
                 s.threads[s.log[i]].out == Answer(config, Logged(calls, s.log[..i]), calls[s.log[i]])
  {
    var s := run[|run| - 1];
    Reachable(run, config, calls);
    forall i | 0 <= i < |s.log| && s.threads[s.log[i]].Done?
      ensures s.threads[s.log[i]].out == Answer(config, Logged(calls, s.log[..i]), calls[s.log[i]])
    {
      AnswerAt(config, calls, s.log, i, s.threads[s.log[i]].out);
    }
  }

  lemma AnswerAt(config: Telemetry.Config, calls: seq<Call>, log: seq<nat>, i: nat, out: Outcome)
    requires i < |log| && forall j :: 0 <= j < |log| ==> log[j] < |calls|
    requires out == LastOutcome(config, Logged(calls, log[..i + 1]))
    ensures out == Answer(config, Logged(calls, log[..i]), calls[log[i]])
  {
    var earlier := log[..i];
    assert log[..i + 1] == earlier + [log[i]];
    LoggedSnoc(calls, earlier, log[i]);
    SequentialAnswer(config, Logged(calls, earlier), calls[log[i]]);
  }
}
