// From the log archive of a run to log records: one scope per job, its files in archive order,
// all read through one reused builder.
module JobLogs {
  import opened Basics
  import opened Text
  import opened ZipLogs
  import opened LogAssembly
  import opened TraceIdentity
  import Labels
  import Traces

  datatype Ids = Ids(traceId: seq<Byte>, spanId: seq<Byte>)

  datatype Record = Record(ids: Option<Ids>, step: int, time: int, body: string)

  /** What all records of a file share. */
  datatype Origin = Origin(ids: Ids, step: int, withTraceInfo: bool)

  function MakeRecord(origin: Origin, entry: Entry): Record {
    Record(if origin.withTraceInfo then Some(origin.ids) else None, origin.step, entry.time, entry.body)
  }

  function Records(origin: Origin, entries: seq<Entry>): (records: seq<Record>)
    ensures |records| == |entries|
    ensures forall i :: 0 <= i < |entries| ==> records[i] == MakeRecord(origin, entries[i])
  {
    seq(|entries|, i requires 0 <= i < |entries| => MakeRecord(origin, entries[i]))
  }

  // ---- The builder ----

  const ZERO_TIME: int := -62135596800 * 1_000_000_000

  class LogEntryBuilder {
    var currentBody: string
    var currentParsedTime: int
    var currentStepNumber: int
    var hasCurrentEntry: bool

    ghost predicate IsReset()
      reads this
    {
      currentBody == "" && currentParsedTime == ZERO_TIME && currentStepNumber == 0 && !hasCurrentEntry
    }

    /** The entry being read, if any. */
    ghost function Current(): Option<Entry>
      reads this
    {
      if hasCurrentEntry then Some(Entry(currentParsedTime, currentBody)) else None
    }

    constructor ()
      ensures IsReset()
    {
      currentBody, currentParsedTime, currentStepNumber, hasCurrentEntry := "", ZERO_TIME, 0, false;
    }

    method Reset()
      modifies this
      ensures IsReset()
    {
      currentBody := "";
      currentParsedTime := ZERO_TIME;
      currentStepNumber := 0;
      hasCurrentEntry := false;
    }
  }

  class ScopeLogs {
    const job: string
    var records: seq<Record>

    constructor (job: string)
      ensures this.job == job && records == []
    {
      this.job := job;
      records := [];
    }
  }

  method FinalizeLogEntry(builder: LogEntryBuilder, scope: ScopeLogs, origin: Origin)
    modifies builder, scope
    ensures builder.IsReset()
    ensures scope.records
            == old(scope.records)
               + [MakeRecord(origin, Entry(old(builder.currentParsedTime), old(builder.currentBody)))]
    ensures var record := scope.records[|scope.records| - 1];
            && record.time == old(builder.currentParsedTime) && record.body == old(builder.currentBody)
            && record.step == origin.step
            && record.ids == if origin.withTraceInfo then Some(origin.ids) else None
  {
    var ids := None;
    if origin.withTraceInfo {
      ids := Some(origin.ids);
    }
    scope.records := scope.records + [Record(ids, origin.step, builder.currentParsedTime, builder.currentBody)];
    builder.Reset();
  }

  /** What one line does to the builder and the records. */
  method ProcessLine(stamp: Stamp, line: string, scope: ScopeLogs, origin: Origin, builder: LogEntryBuilder,
                     ghost before: seq<Record>, ghost r: Reading)
    requires scope.records == before + Records(origin, r.done) && builder.Current() == r.current
    modifies builder, scope
    ensures scope.records == before + Records(origin, Read(stamp, r, line).done)
    ensures builder.Current() == Read(stamp, r, line).current
    ensures old(builder.IsReset()) ==> builder.hasCurrentEntry || builder.IsReset()
  {
    if |line| == 0 {
      return;
    }
    match ParseTimestamp(stamp, line)
    case Some((time, rest)) =>
      if builder.hasCurrentEntry {
        RecordsSnoc(origin, r.done, r.current.value);
        FinalizeLogEntry(builder, scope, origin);
      } else {
        assert r.Close() == r.done;
      }
      builder.currentParsedTime := time;
      builder.currentStepNumber := origin.step;
      builder.hasCurrentEntry := true;
      builder.currentBody := rest;
    case None =>
      if !builder.hasCurrentEntry {
        return;
      }
      if |builder.currentBody| + |line| + 1 > MAX_LOG_ENTRY_BYTES {
        return;
      }
      builder.currentBody := builder.currentBody + "\n";
      builder.currentBody := builder.currentBody + line;
  }

  lemma RecordsSnoc(origin: Origin, entries: seq<Entry>, entry: Entry)
    ensures Records(origin, entries + [entry]) == Records(origin, entries) + [MakeRecord(origin, entry)]
  {
  }

  /** The loop over a file's lines performs the fold, whatever the builder held before, and leaves no entry open. */
  method ProcessLogEntries(stamp: Stamp, lines: seq<string>, scope: ScopeLogs, origin: Origin, builder: LogEntryBuilder)
    modifies builder, scope
    ensures scope.records == old(scope.records)
              + Records(origin, ReadAll(stamp, Reading([], old(builder.Current())), lines).Close())
    ensures !builder.hasCurrentEntry && (old(builder.IsReset()) ==> builder.IsReset())
  {
    ghost var before, start := scope.records, Reading([], builder.Current());
    for n := 0 to |lines|
      invariant scope.records == before + Records(origin, ReadAll(stamp, start, lines[..n]).done)
      invariant builder.Current() == ReadAll(stamp, start, lines[..n]).current
      invariant old(builder.IsReset()) ==> builder.hasCurrentEntry || builder.IsReset()
    {
      assert lines[..n + 1][..n] == lines[..n];
      ProcessLine(stamp, lines[n], scope, origin, builder, before, ReadAll(stamp, start, lines[..n]));
    }
    assert lines[..|lines|] == lines;
    ghost var r := ReadAll(stamp, start, lines);
    if builder.hasCurrentEntry {
      RecordsSnoc(origin, r.done, r.current.value);
      FinalizeLogEntry(builder, scope, origin);
    }
  }

  // ---- Files and jobs ----

  /** The run attempt the archive belongs to, and how to read it. */
  datatype Context = Context(sha: Sha, stamp: Stamp, run: int, attempt: int, withTraceInfo: bool)

  function StepOrigin(c: Context, job: string, n: int): Origin {
    Origin(Ids(TraceId(c.sha, c.run, c.attempt), SpanId(c.sha, c.run, c.attempt, StepNode(job, n))), n, c.withTraceInfo)
  }

  /** The records of a file read on its own; none if its name has no step number or it cannot be opened. */
  function FileRecords(c: Context, job: string, file: ZipFile): seq<Record> {
    match ExtractStepNumber(file.name, job)
    case Err(_) => []
    case Ok(n) =>
      match file.lines
      case None => []
      case Some(lines) => Records(StepOrigin(c, job, n), Entries(c.stamp, lines))
  }

  /** The lines that get processed: none if the name has no step number or the file cannot be opened. */
  function FileLines(job: string, file: ZipFile): Option<seq<string>> {
    if ExtractStepNumber(file.name, job).Err? then None else file.lines
  }

  function JobRecords(c: Context, job: string, files: seq<ZipFile>): seq<Record>
    decreases |files|
  {
    if files == [] then []
    else JobRecords(c, job, files[..|files| - 1]) + FileRecords(c, job, files[|files| - 1])
  }

  method ProcessLogFile(c: Context, file: ZipFile, job: string, scope: ScopeLogs, builder: LogEntryBuilder)
    modifies builder, scope
    ensures old(builder.IsReset()) ==> builder.IsReset()
    ensures old(builder.IsReset()) ==> scope.records == old(scope.records) + FileRecords(c, job, file)
    ensures FileLines(job, file).None? ==> unchanged(builder) && unchanged(scope)
  {
    var step := ExtractStepNumber(file.name, job);
    if step.Err? {
      return;
    }
    if file.lines.None? {
      return;
    }
    ProcessLogEntries(c.stamp, file.lines.value, scope, StepOrigin(c, job, step.value), builder);
  }

  /** Reading a job's files through one builder is reading each with a fresh one. */
  method ProcessJobLogs(c: Context, job: string, files: seq<ZipFile>) returns (scope: ScopeLogs)
    ensures fresh(scope) && scope.job == job
    ensures scope.records == JobRecords(c, job, files)
  {
    scope := new ScopeLogs(job);
    var builder := new LogEntryBuilder();
    for n := 0 to |files|
      invariant builder.IsReset()
      invariant scope.records == JobRecords(c, job, files[..n])
    {
      assert files[..n + 1][..n] == files[..n];
      ProcessLogFile(c, files[n], job, scope, builder);
    }
    assert files[..|files|] == files;
  }

  lemma FilesFor(entries: seq<ZipFile>, files: map<string, seq<ZipFile>>, job: string)
    requires Listed(entries, files)
    ensures (if job in files then files[job] else []) == FilesOf(entries, job)
  {
  }

  ghost predicate Holds(scope: ScopeLogs, c: Context, job: string, entries: seq<ZipFile>)
    reads scope
  {
    scope.job == job && scope.records == JobRecords(c, job, FilesOf(entries, job))
  }

  method ProcessJob(c: Context, job: string, filesByJob: map<string, seq<ZipFile>>, ghost entries: seq<ZipFile>)
    returns (scope: ScopeLogs)
    requires Listed(entries, filesByJob)
    ensures Holds(scope, c, job, entries)
  {
    FilesFor(entries, filesByJob, job);
    scope := ProcessJobLogs(c, job, if job in filesByJob then filesByJob[job] else []);
  }

  method ProcessJobs(c: Context, jobs: seq<string>, filesByJob: map<string, seq<ZipFile>>, ghost entries: seq<ZipFile>)
    returns (scopes: seq<ScopeLogs>)
    requires Listed(entries, filesByJob)
    ensures |scopes| == |jobs| && forall i :: 0 <= i < |jobs| ==> Holds(scopes[i], c, jobs[i], entries)
  {
    scopes := [];
    for n := 0 to |jobs|
      invariant |scopes| == n && forall i :: 0 <= i < n ==> Holds(scopes[i], c, jobs[i], entries)
    {
      var scope := ProcessJob(c, jobs[n], filesByJob, entries);
      scopes := scopes + [scope];
    }
  }

  /** One scope per job of the archive, in the order of their names. */
  method EventToLogs(c: Context, status: string, entries: seq<ZipFile>) returns (logs: Option<seq<ScopeLogs>>)
    ensures logs.None? <==> status != "completed"
    ensures logs.Some? ==>
              && Listing(Jobs(logs.value), entries)
              && forall i :: 0 <= i < |logs.value| ==> Holds(logs.value[i], c, Jobs(logs.value)[i], entries)
  {
    if status != "completed" {
      return None;
    }
    var jobs, filesByJob := ExtractJobsAndFiles(entries);
    var scopes := ProcessJobs(c, jobs, filesByJob, entries);
    assert Jobs(scopes) == jobs;
    return Some(scopes);
  }

  function Jobs(scopes: seq<ScopeLogs>): (jobs: seq<string>)
    ensures |jobs| == |scopes|
    ensures forall i :: 0 <= i < |scopes| ==> jobs[i] == scopes[i].job
  {
    seq(|scopes|, i requires 0 <= i < |scopes| => scopes[i].job)
  }

  ghost predicate Listing(jobs: seq<string>, entries: seq<ZipFile>) {
    StrictlySorted(jobs) && Elements(jobs) == JobSet(entries)
  }

  // ---- Records and files ----

  /**
   * The record of the segment from `a` up to `b`: the time before the first space of its head line, a body of what
   * follows that space and the lines that fit, the number of the step, and the step's identifiers if they are wanted.
   */
  ghost predicate RecordsSegment(c: Context, job: string, n: int, lines: seq<string>, a: nat, b: nat, record: Record) {
    && a < b <= |lines|
    && var space := IndexByte(lines[a], ' ');
       && space != -1
       && c.stamp(lines[a][..space]) == Some(record.time)
       && record.body == Join([lines[a][space + 1..]] + Kept(lines[a][space + 1..], lines[a + 1..b]), '\n')
       && record.step == n
       && (record.ids.Some? <==> c.withTraceInfo)
       && (record.ids.Some? ==> && record.ids.value.traceId == TraceId(c.sha, c.run, c.attempt)
                                && record.ids.value.spanId == SpanId(c.sha, c.run, c.attempt, StepNode(job, n)))
  }

  /** The records of an archive entry: one per timestamped line, in order, each of its segment, if it is readable. */
  lemma RecordPerHead(c: Context, job: string, file: ZipFile, n: int, lines: seq<string>)
    requires ExtractStepNumber(file.name, job) == Ok(n) && file.lines == Some(lines)
    ensures var heads, records := Heads(c.stamp, lines), FileRecords(c, job, file);
            && ValidHeads(c.stamp, lines, heads) && |records| == |heads|
            && forall k :: 0 <= k < |heads| ==>
                 RecordsSegment(c, job, n, lines, heads[k], SegmentEnd(lines, heads, k), records[k])
  {
    var heads, records := Heads(c.stamp, lines), FileRecords(c, job, file);
    EntriesAreSegments(c.stamp, lines);
    forall k | 0 <= k < |heads|
      ensures RecordsSegment(c, job, n, lines, heads[k], SegmentEnd(lines, heads, k), records[k])
    {
      SegmentRecorded(c, job, n, lines, heads[k], SegmentEnd(lines, heads, k));
    }
  }

  lemma SegmentRecorded(c: Context, job: string, n: int, lines: seq<string>, a: nat, b: nat)
    requires a < b <= |lines| && IsHead(c.stamp, lines[a])
    ensures RecordsSegment(c, job, n, lines, a, b, MakeRecord(StepOrigin(c, job, n), Segment(c.stamp, lines, a, b)))
  {
    BodyIsJoined(ParseTimestamp(c.stamp, lines[a]).value.1, lines[a + 1..b]);
  }

  function RecordBodies(records: seq<Record>): (bodies: seq<string>)
    ensures |bodies| == |records|
    ensures forall i :: 0 <= i < |records| ==> bodies[i] == records[i].body
  {
    seq(|records|, i requires 0 <= i < |records| => records[i].body)
  }

  /**
   * Splitting the bodies of a file's records and putting the timestamps back gives exactly the accepted lines, in
   * order; and these are all the non-empty lines if and only if the file is lossless.
   */
  lemma RecordsRoundTrip(c: Context, job: string, file: ZipFile, n: int, lines: seq<string>)
    requires ExtractStepNumber(file.name, job) == Ok(n) && file.lines == Some(lines) && SingleLines(lines)
    ensures var bodies, heads := RecordBodies(FileRecords(c, job, file)), Heads(c.stamp, lines);
            && |Prefixes(c.stamp, lines)| == |bodies|
            && Restore(Prefixes(c.stamp, lines), bodies) == Accepted(c.stamp, lines)
            && ValidHeads(c.stamp, lines, heads)
            && (Restore(Prefixes(c.stamp, lines), bodies) == NonEmpty(lines) <==> Lossless(c.stamp, lines, heads))
  {
    RoundTrip(c.stamp, lines);
    NothingLostIff(c.stamp, lines);
    assert RecordBodies(FileRecords(c, job, file)) == Bodies(Entries(c.stamp, lines));
  }

  /**
   * Logs meet traces: a record from the file of step `n` of a job carries the identifiers of the span that the
   * job's own event, delivered separately, makes for step `n`.
   */
  lemma RecordsCarryStepSpan(c: Context, event: Traces.JobEvent, i: nat, suffix: string, lines: seq<string>, k: nat)
    requires c.withTraceInfo && i < |event.steps|
    requires event.job.runId == c.run && event.job.runAttempt == c.attempt
    requires '/' !in event.job.name && FitsInt64(event.steps[i].number)
    requires var file := ZipFile(StepFileName(event.job.name, event.steps[i].number, suffix), false, Some(lines));
             k < |FileRecords(c, event.job.name, file)|
    ensures var file := ZipFile(StepFileName(event.job.name, event.steps[i].number, suffix), false, Some(lines));
            var span := Traces.StepSpan(c.sha, event.job, event.defaultBranch, event.steps[i]);
            && FileJob(file) == Some(event.job.name)
            && FileRecords(c, event.job.name, file)[k].ids == Some(Ids(span.traceId, span.spanId))
            && FileRecords(c, event.job.name, file)[k].step == event.steps[i].number
  {
    StepFileRoundTrip(event.job.name, event.steps[i].number, suffix, Some(lines));
  }
}
