// The timestamps of Drone log records. Drone gives its log lines whole seconds only; lines of
// the same second are told apart by counting nanoseconds up.
module DroneLogs {
  import opened Basics

  const NANOS: int := 1_000_000_000

  datatype Line = Line(timestamp: int, message: string)

  datatype LogRecord = LogRecord(traceId: nat, spanId: nat, timestamp: nat, body: string)

  /** pcommon.Timestamp of an int64. */
  function ToTimestamp(n: int): (t: nat)
    requires FitsInt64(n)
    ensures t < TWO_TO_64
    ensures n >= 0 ==> t == n
  {
    if n < 0 then n + TWO_TO_64 else n
  }

  // ---- The loop as a fold over the lines' times ----

  /** The time of the previous line; before the first line it is 0. */
  function Previous(times: seq<int>): int {
    if times == [] then 0 else times[|times| - 1]
  }

  function Delta(times: seq<int>): (delta: int)
    ensures FitsInt64(delta)
    decreases |times|
  {
    if times == [] then 0
    else
      var init := times[..|times| - 1];
      if times[|times| - 1] == Previous(init) then WrapInt64(Delta(init) + 1) else 0
  }

  lemma DeltaNext(times: seq<int>, time: int)
    ensures Previous(times + [time]) == time
    ensures Delta(times + [time]) == if time == Previous(times) then WrapInt64(Delta(times) + 1) else 0
  {
    assert (times + [time])[..|times|] == times;
  }

  /** The timestamp of a line, in the int64 arithmetic of the source. */
  function Stamp(started: int, time: int, delta: int): nat {
    ToTimestamp(WrapInt64(WrapInt64(WrapInt64(started + time) * NANOS) + delta))
  }

  function Stamps(started: int, times: seq<int>): (stamps: seq<nat>)
    ensures |stamps| == |times|
    decreases |times|
  {
    if times == [] then []
    else Stamps(started, times[..|times| - 1]) + [Stamp(started, times[|times| - 1], Delta(times))]
  }

  function Times(lines: seq<Line>): (times: seq<int>)
    ensures |times| == |lines|
    ensures forall i :: 0 <= i < |lines| ==> times[i] == lines[i].timestamp
  {
    seq(|lines|, i requires 0 <= i < |lines| => lines[i].timestamp)
  }

  /** The records of a step's log. */
  function RecordsOf(traceId: nat, spanId: nat, started: int, lines: seq<Line>): (records: seq<LogRecord>)
    ensures |records| == |lines|
    ensures forall i :: 0 <= i < |lines| ==>
              records[i] == LogRecord(traceId, spanId, Stamps(started, Times(lines))[i], lines[i].message)
  {
    seq(|lines|, i requires 0 <= i < |lines| =>
      LogRecord(traceId, spanId, Stamps(started, Times(lines))[i], lines[i].message))
  }

  lemma TimesSnoc(lines: seq<Line>, n: nat)
    requires n < |lines|
    ensures Times(lines[..n + 1]) == Times(lines[..n]) + [lines[n].timestamp]
    ensures Times(lines[..n + 1])[..n] == Times(lines[..n])
  {
  }

  lemma RecordsSnoc(traceId: nat, spanId: nat, started: int, lines: seq<Line>, n: nat, delta: int, record: LogRecord)
    requires n < |lines| && delta == Delta(Times(lines[..n + 1]))
    requires record == LogRecord(traceId, spanId, Stamp(started, lines[n].timestamp, delta), lines[n].message)
    ensures RecordsOf(traceId, spanId, started, lines[..n + 1])
            == RecordsOf(traceId, spanId, started, lines[..n]) + [record]
  {
    TimesSnoc(lines, n);
    var longer, shorter := Stamps(started, Times(lines[..n + 1])), Stamps(started, Times(lines[..n]));
    assert longer == shorter + [record.timestamp];
    assert lines[..n + 1][..n] == lines[..n];
  }

  /** The loop's variables after the lines with the given times. */
  ghost predicate Counted(times: seq<int>, prevLineTimestamp: int, delta: int) {
    prevLineTimestamp == Previous(times) && delta == Delta(times)
  }

  lemma CountNext(times: seq<int>, prevLineTimestamp: int, delta: int, time: int)
    requires Counted(times, prevLineTimestamp, delta)
    ensures time == prevLineTimestamp ==> Counted(times + [time], prevLineTimestamp, WrapInt64(delta + 1))
    ensures time != prevLineTimestamp ==> Counted(times + [time], time, 0)
  {
    DeltaNext(times, time);
  }

  method GenerateLogs(lines: seq<Line>, started: int, traceId: nat, spanId: nat) returns (records: seq<LogRecord>)
    ensures records == RecordsOf(traceId, spanId, started, lines)
  {
    records := [];
    var prevLineTimestamp, delta := 0, 0;
    for n := 0 to |lines|
      invariant Counted(Times(lines[..n]), prevLineTimestamp, delta)
      invariant records == RecordsOf(traceId, spanId, started, lines[..n])
    {
      var line := lines[n];
      CountNext(Times(lines[..n]), prevLineTimestamp, delta, line.timestamp);
      TimesSnoc(lines, n);
      if line.timestamp == prevLineTimestamp {
        delta := WrapInt64(delta + 1);
      } else {
        delta := 0;
        prevLineTimestamp := line.timestamp;
      }
      var record := LogRecord(traceId, spanId, Stamp(started, line.timestamp, delta), line.message);
      RecordsSnoc(traceId, spanId, started, lines, n, delta, record);
      records := records + [record];
    }
    assert lines[..|lines|] == lines;
  }

  // ---- What the deltas are ----

  /** How many lines up to the last one share its time without interruption. */
  function Run(times: seq<int>): nat
    decreases |times|
  {
    if times == [] then 0
    else
      var init := times[..|times| - 1];
      if init != [] && times[|times| - 1] == Previous(init) then Run(init) + 1 else 1
  }

  /** The delta is a line's position among its equals, but if the very first line has time 0 its run counts from 1. */
  lemma {:induction false} DeltaIsPosition(times: seq<int>)
    requires 0 < |times| < TWO_TO_63
    ensures 0 < Run(times) <= |times|
    ensures Delta(times) == Run(times) - if times[|times| - 1] == 0 && Run(times) == |times| then 0 else 1
    decreases |times|
  {
    var init := times[..|times| - 1];
    if init != [] {
      DeltaIsPosition(init);
    }
  }

  lemma {:induction false} StampAt(started: int, times: seq<int>, i: nat)
    requires i < |times|
    ensures Stamps(started, times)[i] == Stamp(started, times[i], Delta(times[..i + 1]))
    decreases |times|
  {
    if i == |times| - 1 {
      assert times[..i + 1] == times;
    } else {
      StampAt(started, times[..|times| - 1], i);
      assert times[..|times| - 1][..i + 1] == times[..i + 1];
    }
  }

  // ---- When the arithmetic is exact ----

  lemma WrapSubtracts(n: int) returns (k: int)
    ensures WrapInt64(n) == n - k * TWO_TO_64
  {
    k := (n + TWO_TO_63) / TWO_TO_64;
  }

  /** However often the int64 arithmetic wraps around, the timestamp is right modulo 2^64. */
  lemma StampModular(started: int, time: int, delta: int)
    ensures Stamp(started, time, delta) == ((started + time) * NANOS + delta) % TWO_TO_64
  {
    var second := WrapInt64(started + time);
    var k := WrapSubtracts(started + time);
    var l := WrapSubtracts(second * NANOS);
    var nanos := WrapInt64(second * NANOS);
    var m := WrapSubtracts(nanos + delta);
    var n := if WrapInt64(nanos + delta) < 0 then 1 else 0;
    var exact := (started + time) * NANOS + delta;
    assert second * NANOS == (started + time) * NANOS - k * NANOS * TWO_TO_64;
    assert Stamp(started, time, delta) == exact - (k * NANOS + l + m - n) * TWO_TO_64;
    DivModUnique(exact, TWO_TO_64, k * NANOS + l + m - n, Stamp(started, time, delta));
  }

  /** The last second whose nanoseconds all fit a timestamp, and the last one whose nanoseconds all fit an int64. */
  const MAX_SECOND: int := 18446744072
  const MAX_INT64_SECOND: int := 9223372035

  ghost predicate InRange(started: int, times: seq<int>) {
    |times| < NANOS && forall i :: 0 <= i < |times| ==> 0 <= started + times[i] <= MAX_SECOND
  }

  /** Up to the int64 bound no step of the computation overflows. */
  lemma NoOverflow(started: int, time: int, delta: int)
    requires 0 <= started + time <= MAX_INT64_SECOND && 0 <= delta < NANOS
    ensures FitsInt64(started + time) && FitsInt64((started + time) * NANOS)
    ensures FitsInt64((started + time) * NANOS + delta)
  {
  }

  /** In range a timestamp is the line's second and its delta, and the second can be read back. */
  lemma StampExact(started: int, times: seq<int>, i: nat)
    requires InRange(started, times) && i < |times|
    ensures 0 <= Delta(times[..i + 1]) < 1_000_000_000
    ensures Stamps(started, times)[i] == (started + times[i]) * 1_000_000_000 + Delta(times[..i + 1])
    ensures Stamps(started, times)[i] / 1_000_000_000 == started + times[i]
  {
    StampAt(started, times, i);
    DeltaIsPosition(times[..i + 1]);
    var second, delta := started + times[i], Delta(times[..i + 1]);
    StampModular(started, times[i], delta);
    DivModUnique(second * NANOS + delta, TWO_TO_64, 0, second * NANOS + delta);
    DivModUnique(second * NANOS + delta, NANOS, second, delta);
  }

  /** A line's second can be read back if and only if the exact number of nanoseconds fits a timestamp. */
  lemma SecondRecoveredIff(started: int, time: int, delta: int)
    requires 0 <= delta < NANOS
    ensures Stamp(started, time, delta) / NANOS == started + time
            <==> 0 <= (started + time) * NANOS + delta < TWO_TO_64
  {
    var second := started + time;
    var exact, stamp := second * NANOS + delta, Stamp(started, time, delta);
    StampModular(started, time, delta);
    DivModUnique(exact, NANOS, second, delta);
    FarApart(stamp, exact, exact / TWO_TO_64);
    if 0 <= exact < TWO_TO_64 {
      DivModUnique(exact, TWO_TO_64, 0, exact);
    }
  }

  /** Numbers of the same second differ by less than 2^64, unless they are equal. */
  lemma FarApart(stamp: int, exact: int, q: int)
    requires exact == stamp + q * TWO_TO_64
    ensures stamp / NANOS == exact / NANOS ==> stamp == exact
  {
    assert stamp / NANOS == exact / NANOS ==> -NANOS < stamp - exact < NANOS;
    assert q == 0 || q * TWO_TO_64 >= TWO_TO_64 || q * TWO_TO_64 <= -TWO_TO_64;
  }

  ghost predicate Nondecreasing(times: seq<int>) {
    forall i :: 0 <= i < |times| - 1 ==> times[i] <= times[i + 1]
  }

  ghost predicate StrictlyIncreasing(stamps: seq<nat>) {
    forall i, j :: 0 <= i < j < |stamps| ==> stamps[i] < stamps[j]
  }

  lemma NextStamp(started: int, times: seq<int>, i: nat)
    requires InRange(started, times) && i + 1 < |times|
    ensures Stamps(started, times)[i] < Stamps(started, times)[i + 1] <==> times[i] <= times[i + 1]
  {
    StampExact(started, times, i);
    StampExact(started, times, i + 1);
    assert times[..i + 2][..i + 1] == times[..i + 1];
    DeltaIsPosition(times[..i + 1]);
    if times[i] < times[i + 1] {
      MultiplesApart(started + times[i], started + times[i + 1], NANOS);
    } else if times[i + 1] < times[i] {
      MultiplesApart(started + times[i + 1], started + times[i], NANOS);
    }
  }

  lemma {:induction false} StepwiseIncreasing(s: seq<nat>, i: nat, j: nat)
    requires forall k :: 0 <= k < |s| - 1 ==> s[k] < s[k + 1]
    requires i < j < |s|
    ensures s[i] < s[j]
    decreases j - i
  {
    if i + 1 < j {
      StepwiseIncreasing(s, i, j - 1);
    }
    assert s[j - 1] < s[j - 1 + 1];
  }

  /** The timestamps of a log are strictly increasing if and only if its lines are in time order. */
  lemma StampsIncreaseIff(started: int, times: seq<int>)
    requires InRange(started, times)
    ensures StrictlyIncreasing(Stamps(started, times)) <==> Nondecreasing(times)
  {
    var s := Stamps(started, times);
    forall i | 0 <= i < |times| - 1
      ensures s[i] < s[i + 1] <==> times[i] <= times[i + 1]
    {
      NextStamp(started, times, i);
    }
    if Nondecreasing(times) {
      forall i, j | 0 <= i < j < |s|
        ensures s[i] < s[j]
      {
        StepwiseIncreasing(s, i, j);
      }
    }
  }

  /** A log that starts in its step's first second skips that second's first nanosecond. */
  lemma FirstSecondSkipsZero(started: int)
    requires 0 <= started <= MAX_SECOND
    ensures Stamps(started, [0, 0]) == [started * NANOS + 1, started * NANOS + 2]
  {
    var times := [0, 0];
    DeltaNext([], 0);
    DeltaNext([0], 0);
    assert times[..1] == [0] && times[..2] == [0] + [0] && [] + [0] == [0];
    StampExact(started, times, 0);
    StampExact(started, times, 1);
  }

  /** Out of order, lines of one second that are not neighbours get the same timestamp. */
  lemma OutOfOrderCollide()
    ensures Stamps(0, [1, 2, 1])[0] == Stamps(0, [1, 2, 1])[2]
  {
    assert [1, 2, 1][..2] == [1, 2] && [1, 2][..1] == [1] && [1][..0] == [];
  }

  // ---- When timestamps are distinct ----

  /** The line does not continue the second before it (the loop starts from second 0). */
  predicate Starts(times: seq<int>, i: nat)
    requires i < |times|
  {
    times[i] != if i == 0 then 0 else times[i - 1]
  }

  ghost predicate DistinctStamps(stamps: seq<nat>) {
    forall i, j :: 0 <= i < j < |stamps| ==> stamps[i] != stamps[j]
  }

  /**
   * No second is started twice; and if the log begins in second 0, which is not counted as a start, a later start
   * of second 0 has one line only.
   */
  ghost predicate NoSecondResumed(times: seq<int>) {
    && (forall i, j :: 0 <= i < j < |times| && Starts(times, i) && Starts(times, j) ==> times[i] != times[j])
    && (times != [] && times[0] == 0 ==>
          forall i :: 0 < i < |times| - 1 && Starts(times, i) && times[i] == 0 ==> times[i + 1] != 0)
  }

  lemma DeltaStep(times: seq<int>, i: nat)
    requires i < |times| < TWO_TO_63
    ensures Delta(times[..i + 1]) == if Starts(times, i) then 0 else Delta(times[..i]) + 1
    ensures 0 <= Delta(times[..i]) <= i
  {
    var before := times[..i];
    assert times[..i + 1] == before + [times[i]];
    DeltaNext(before, times[i]);
    if i > 0 {
      assert before[i - 1] == times[i - 1];
      DeltaIsPosition(before);
    }
  }

  /** Where the second of a line was started: its delta ago, or at the very beginning of the log. */
  lemma {:induction false} SecondStarted(times: seq<int>, i: nat) returns (beginning: bool)
    requires i < |times| < TWO_TO_63
    ensures var delta := Delta(times[..i + 1]);
            if beginning then delta == i + 1 && forall m :: 0 <= m <= i ==> times[m] == 0
            else 0 <= delta <= i && Starts(times, i - delta)
                 && forall m :: i - delta <= m <= i ==> times[m] == times[i]
  {
    DeltaStep(times, i);
    if Starts(times, i) {
      beginning := false;
    } else if i == 0 {
      beginning := true;
    } else {
      beginning := SecondStarted(times, i - 1);
    }
  }

  lemma SameStampIff(started: int, times: seq<int>, i: nat, j: nat)
    requires InRange(started, times) && i < |times| && j < |times|
    ensures Stamps(started, times)[i] == Stamps(started, times)[j]
            <==> times[i] == times[j] && Delta(times[..i + 1]) == Delta(times[..j + 1])
  {
    StampExact(started, times, i);
    StampExact(started, times, j);
  }

  lemma SameStampResumes(times: seq<int>, i: nat, j: nat)
    requires i < j < |times| < TWO_TO_63 && times[i] == times[j]
    requires Delta(times[..i + 1]) == Delta(times[..j + 1])
    ensures !NoSecondResumed(times)
  {
    var d := Delta(times[..i + 1]);
    var atBeginning := SecondStarted(times, i);
    var alsoAtBeginning := SecondStarted(times, j);
    if !atBeginning {
      var m, n := i - d, j - d;
      assert times[m] == times[n] && Starts(times, m) && Starts(times, n);
    } else {
      assert times[0] == 0 && times[j - d] == 0 && times[j - d + 1] == 0 && Starts(times, j - d);
    }
  }

  /** The second line of a resumed second 0 counts like the first line of the log. */
  lemma SecondLineOfZero(times: seq<int>, n: nat)
    requires 0 < n < |times| - 1 && |times| < TWO_TO_63 && times[0] == 0
    requires Starts(times, n) && times[n] == 0 && times[n + 1] == 0
    ensures Delta(times[..1]) == 1 && Delta(times[..n + 2]) == 1
  {
    DeltaStep(times, 0);
    DeltaStep(times, n);
    DeltaStep(times, n + 1);
    assert times[..0] == [];
  }

  /** Lines that count the same within the same second. */
  ghost predicate SameCount(times: seq<int>, i: nat, j: nat) {
    i < j < |times| && times[i] == times[j] && Delta(times[..i + 1]) == Delta(times[..j + 1])
  }

  lemma StartedTwiceCollides(times: seq<int>, i: nat, j: nat)
    requires i < j < |times| < TWO_TO_63 && Starts(times, i) && Starts(times, j) && times[i] == times[j]
    ensures SameCount(times, i, j)
  {
    DeltaStep(times, i);
    DeltaStep(times, j);
  }

  lemma ZeroResumedCollides(times: seq<int>, n: nat)
    requires 0 < n < |times| - 1 && |times| < TWO_TO_63 && times[0] == 0
    requires Starts(times, n) && times[n] == 0 && times[n + 1] == 0
    ensures SameCount(times, 0, n + 1)
  {
    SecondLineOfZero(times, n);
  }

  lemma ResumedCollides(times: seq<int>) returns (i: nat, j: nat)
    requires |times| < TWO_TO_63 && !NoSecondResumed(times)
    ensures SameCount(times, i, j)
  {
    if m, n :| 0 <= m < n < |times| && Starts(times, m) && Starts(times, n) && times[m] == times[n] {
      i, j := m, n;
      StartedTwiceCollides(times, m, n);
    } else {
      var n :| 0 < n < |times| - 1 && Starts(times, n) && times[n] == 0 && times[n + 1] == 0;
      i, j := 0, n + 1;
      ZeroResumedCollides(times, n);
    }
  }

  /** In range the timestamps of a log are pairwise distinct if and only if no second is resumed in this sense. */
  lemma StampsDistinctIff(started: int, times: seq<int>)
    requires InRange(started, times)
    ensures DistinctStamps(Stamps(started, times)) <==> NoSecondResumed(times)
  {
    if NoSecondResumed(times) {
      forall i, j | 0 <= i < j < |times|
        ensures Stamps(started, times)[i] != Stamps(started, times)[j]
      {
        SameStampIff(started, times, i, j);
        if Stamps(started, times)[i] == Stamps(started, times)[j] {
          SameStampResumes(times, i, j);
        }
      }
    } else {
      var i, j := ResumedCollides(times);
      SameStampIff(started, times, i, j);
    }
  }
}
