# Verification of the CI receivers

A Dafny model of the stateful parts of the GitHub Actions receiver, the Drone receiver and the
registry of shared components, with proofs of what they promise. `dafny verify dfyconfig.toml` checks it.

## What is modelled

**Metrics of the GitHub Actions receiver.** Webhook events become cumulative sums and histograms. `Lru` is the bounded
cache (value and object), `CacheKeys` the keys and `KeyCollisions` when they fail, `Counters`, `CounterStreams`,
`CounterLimits`, `CounterLifetimes` and `CountEvents` the counting algorithm over whole runs of events,
`SharedCounters` what jobs and runs have in common, `Histograms` the duration histograms and their 24-hour sweep,
`Telemetry` the generated enumerations and the metrics builder, `Events` and `Labels` what is read off an event.
`Engine` puts them together as a state machine with one step per critical section; `Interleaving` breaks the step into
its single accesses to shared state and lets any number of calls interleave under the mutex; `Concurrency` draws the
consequences and `Progress` shows that nothing gets stuck. `HistogramStore` and `MetricsHandler` are the objects,
updated in place, and are proved to perform the steps of the state machine. `Guarantees` states what a consumer of the
metrics sees over whole runs, and `Emissions` what one webhook event emits, field by field and in the event's own
terms.

**Logs.** `ZipLogs` groups the archive by job and parses step numbers, `LogAssembly` folds lines into records, and
`JobLogs` is the reused builder and the loops over files and jobs.

**Traces.** `TraceIdentity` is the scheme of hashed identifiers and when it is unique; `Traces` makes the spans.

**Shared components.** `SharedComponents` is the registry, as a value and as objects.

**Drone.** `DroneLogs` is the timestamp arithmetic, `DroneTraces` the build, stage and step loops.

`Basics` and `Text` hold sequences, machine integers, splitting and decimal numerals.

Strings are sequences of bytes. Counters wrap around at 2^63 and histogram counts at 2^64, as in the source. Times
are integers of nanoseconds (seconds for Drone); durations and histogram sums are real numbers. Clock readings,
the digest function, the timestamp parser, the answers of the Drone server, the errors of wrapped components and
whether an archive entry can be opened are parameters. Where the source ranges over a map, the proofs hold for
every iteration order.

Some results are about behaviour a maintainer may not expect:

- A job or run event whose action is not a known status, or whose sum is disabled, makes the handler index into an
  empty emission and panic (`MetricsHandler.JobEventPanicsIff` and `MetricsHandler.RunEventPanicsIff` give the exact
  condition). The event GitHub sends when a run is requested is one (`MetricsHandler.RequestedRunPanics`). The comment
  in the handler suggests such events are merely not recorded.
- Jobs and runs share one counter cache, and the key does not say which it is: a job whose only label is `default`
  and a run add up (`SharedCounters.JobAndRunAddUp`, and `SharedCounters.JobSharesRunKeyIff` for which jobs).
- Past 2500 groups cumulative sums can go back for two reasons: counters are evicted (`CounterLimits.CounterResets`),
  and a group that is cached in part is seeded again over its live counters (`CounterLifetimes.SeedingOverwrites`).
  When exactly a counter starts over is stated by `CounterLifetimes.CounterGoesOnIff`.
- Colons in repository, workflow or job names can make different series share a counter or a histogram
  (`KeyCollisions` has the exact conditions).
- Job names that end in digits can make two step spans share an identifier (`TraceIdentity.NamesCollide`), and so
  can run numbers and attempts (`TraceIdentity.AttemptsCollide`).
- The comment on the log size limit speaks of truncation; the code skips whole lines and may still append a
  shorter line after a skipped one. The model does what the code does.

## Model

| member | source | states |
|---|---|---|
| Concurrency.NoLostIncrement | receiver/githubactionsreceiver/metric_event_handling.go:78-256 | However the handler calls interleave, access by access, once all are done the counters are those of any sequential order of the same calls, as long as at most 2500 groups are touched |
| Concurrency.AnyOrderSameCounters | receiver/githubactionsreceiver/metric_event_handling.go:138-163 | Two sequential runs of the same calls, in any two orders, leave the same counters (at most 2500 groups) |
| Concurrency.AnswersAreSequential | receiver/githubactionsreceiver/metric_event_handling.go:70-170 | In every interleaving each finished call, counting, build-info or bare, returned exactly its own report as in the sequential run in lock order, and the times written to the histogram cache are nondecreasing in that order |
| Interleaving.Reachable | receiver/githubactionsreceiver/metric_event_handling.go:93-170 | In every reachable state of the interleaved system at most the lock owner is inside its critical section, and the shared state plus the rest of that section equals the sequential run in lock order |
| Interleaving.FinishIsStep | receiver/githubactionsreceiver/metric_event_handling.go:138-170 | Load, each seeding store and point, final store and point, emission, observation and sweep, executed one access at a time, add up to one step of the handler |
| Progress.NeverStuck | receiver/githubactionsreceiver/metric_event_handling.go:93-94 | In every reachable state the thread that has the lock can go on, and when nobody has it any waiting thread whose clock readings are not in the past can take it |
| Progress.NoDeadlock | receiver/githubactionsreceiver/metric_event_handling.go:93-94 | A behaviour that has not finished can go on, with the threads that still wait reading the clock when they get the lock |
| Progress.BehavioursEnd | receiver/githubactionsreceiver/metric_event_handling.go:93-170 | Every step of the interleaved system reduces a bound on the remaining work, so no behaviour goes on for ever |
| MetricsHandler.Handler.constructor | receiver/githubactionsreceiver/metric_event_handling.go:37-68 | A new handler has two empty caches of 100000 counters and 50000 histograms and no buffered points |
| MetricsHandler.Handler.BuildInfoMetrics | receiver/githubactionsreceiver/metric_event_handling.go:70-76 | The object performs the build-info step: one point of value 1, emitted with whatever is buffered |
| MetricsHandler.Handler.WorkflowJobEventToMetrics | receiver/githubactionsreceiver/metric_event_handling.go:78-170 | For every job event, nil parts and empty repository names included, the object performs exactly one step of the state machine, on the counter and the duration the event determines, for some iteration order of the lookup tables |
| MetricsHandler.Handler.WorkflowRunEventToMetrics | receiver/githubactionsreceiver/metric_event_handling.go:172-256 | The same for workflow run events, whose label is always "default" |
| MetricsHandler.ReadJobTarget | receiver/githubactionsreceiver/metric_event_handling.go:117-138 | A job event counts if and only if its action is in the table; repository and labels are the event's; the status printed is the action, or aborted for completed, cancelled and one step; the conclusion printed is the event's if it is in the table and null otherwise; main means the head is the default branch |
| MetricsHandler.ReadRunTarget | receiver/githubactionsreceiver/metric_event_handling.go:199-224 | The same for runs, which are labelled "default" and never aborted |
| MetricsHandler.ReadJobTiming | receiver/githubactionsreceiver/metric_duration.go:82-107 | A duration is measured if and only if the job is completed and has both times; it is their difference in seconds, cut off at the ends of int64 nanoseconds; repository, workflow, job, labels, conclusion and branch flag of its series are the event's own |
| MetricsHandler.ReadRunTiming | receiver/githubactionsreceiver/metric_duration.go:134-158 | The same for a run, measured from its start to its last update, with its own repository, workflow, conclusion and branch flag |
| MetricsHandler.Handler.SeedPair | receiver/githubactionsreceiver/metric_event_handling.go:149-160 | Seeding passes over the pair that is hit, stores 0 under every other key and records its point; the map of recorded keys never suppresses a point |
| MetricsHandler.Handler.SeedGroup | receiver/githubactionsreceiver/metric_event_handling.go:147-162 | Iterating both lookup tables in an arbitrary order visits each of the 40 pairs once and seeds 39 of them |
| MetricsHandler.Handler.CountAccepted | receiver/githubactionsreceiver/metric_event_handling.go:138-165 | Load, seed on a miss, store the incremented value and record its point, as the counter algorithm prescribes |
| MetricsHandler.Handler.AppendDuration | receiver/githubactionsreceiver/metric_duration.go:104-131 | Observes the duration in the cached (or a new) state, in place, adds it, and reports a copy of its count, sum and buckets |
| MetricsHandler.Handler.CountAndObserve | receiver/githubactionsreceiver/metric_event_handling.go:138-170 | The critical section from lock to unlock, including the panic on an empty emission, is one step |
| MetricsHandler.JobEventPanicsIff | receiver/githubactionsreceiver/metric_event_handling.go:138-166 | A job event makes the handler panic if and only if repository and payload are there, the name is not empty, and the action is not in the table or the sum of jobs is disabled |
| MetricsHandler.RunEventPanicsIff | receiver/githubactionsreceiver/metric_event_handling.go:224-252 | The same for run events and the sum of runs |
| MetricsHandler.RequestedRunPanics | receiver/githubactionsreceiver/receiver.go:292-300 | After any calls, the event GitHub sends when a run is requested makes the handler panic; the receiver passes on the events of pushed runs unfiltered |
| Emissions.JobEventReports | receiver/githubactionsreceiver/metric_event_handling.go:98-170 | After any calls, what a job event with a known action emits: points of its own repository, labels and branch, stamped with the start time and the clock reading, zeros first and last its own status and conclusion as printed; and a histogram if and only if the job is completed and has both times |
| Emissions.RunEventReports | receiver/githubactionsreceiver/metric_event_handling.go:191-256 | The same for run events, with the label "default" |
| Emissions.FirstContactEmission | receiver/githubactionsreceiver/metric_event_handling.go:145-163 | Over at most 2500 groups the first event of a group emits 40 points with pairwise different attributes: 39 zeros and its own 1 |
| Emissions.JobEventCounts | receiver/githubactionsreceiver/metric_event_handling.go:117-163 | A job event adds one counted event with its own repository, labels, branch, status and conclusion if its action is known, whether or not the sum is enabled, and none otherwise |
| Emissions.RunEventCounts | receiver/githubactionsreceiver/metric_event_handling.go:199-249 | The same for run events |
| Emissions.JobDurationReports | receiver/githubactionsreceiver/metric_duration.go:82-131 | The histogram of a completed job has the event's attributes and describes all durations of its series, the last of which is the time from the job's start to its completion (series alone under its key, active, cache not crowded) |
| Emissions.RunDurationReports | receiver/githubactionsreceiver/metric_duration.go:134-181 | The same for a completed run, from its start to its last update |
| Emissions.UnreadableEventIsIgnored | receiver/githubactionsreceiver/metric_event_handling.go:79-92 | A job event without repository, repository name or payload changes nothing and emits nothing |
| Emissions.UnreadableRunEventIsIgnored | receiver/githubactionsreceiver/metric_event_handling.go:174-189 | The same for run events |
| Emissions.BuildInfoReports | receiver/githubactionsreceiver/metric_event_handling.go:70-76 | Build information is one gauge with one point: the version, the start time, the clock reading and the value 1; nothing if it is disabled |
| Engine.StepEffect | receiver/githubactionsreceiver/metric_event_handling.go:165-169 | What one step does to both caches and the buffers, and that it panics if and only if the call counts nothing: unknown action or disabled sum |
| Engine.BuffersDrained | receiver/githubactionsreceiver/metric_event_handling.go:165-165 | After every run of steps no point is left in the buffers for a later event |
| Engine.CountersAfter | receiver/githubactionsreceiver/metric_event_handling.go:138-163 | After every run of steps the counter cache is what the accepted events, in order, leave |
| Engine.HistsAfter | receiver/githubactionsreceiver/metric_event_handling.go:165-169 | After every run of steps the histogram cache is what the observations and sweeps, in order, leave |
| Engine.CountOutcome | receiver/githubactionsreceiver/metric_event_handling.go:165-170 | A counting call returns one resource with the points of its own event and, for a completed job or run, its histogram, and nothing of earlier events |
| Engine.EmittedCountsAreSamples | receiver/githubactionsreceiver/metric_event_handling.go:138-170 | The stream of emitted counts is the stream of samples of the counter algorithm whose kind of sum is enabled: none dropped, repeated or carried over |
| Guarantees.EmittedSeriesCountsUp | receiver/githubactionsreceiver/metric_event_handling.go:138-163 | If the sum of its kind is enabled, the emitted values of a series count up by exactly one from a seed 0 or a first 1 to the number of its accepted events (at most 2500 groups, colon-free repositories, no job labelled "default") |
| Guarantees.CountersAreCounts | receiver/githubactionsreceiver/metric_event_handling.go:138-163 | Over at most 2500 groups the handler's cache holds all 40 counters of each group and no other, each equal to the number of accepted events with its key |
| Guarantees.EmittedHistogramIsHistory | receiver/githubactionsreceiver/metric_duration.go:60-80 | If no other series was observed under its key, at most 50000 are live at any time and its events are less than 24 hours apart, the point of a series has the number of all its durations modulo 2^64 as count, their total as sum, the seven bounds, in each bucket the number of durations between its bounds, its own attributes and the time read for it; the event's own duration is the last |
| Guarantees.EmittedHistogramIsOwnIff | receiver/githubactionsreceiver/metric_duration.go:60-131 | Where no sweep has found the key expired, count, sum and buckets are those of exactly the series' own durations if and only if no other series was observed under its key |
| Guarantees.FirstDurationReported | receiver/githubactionsreceiver/metric_duration.go:35-46 | The first event of a series alone under its key reports a count of 1, its duration as the sum, and 1 in the bucket whose bounds are around it and 0 in all others |
| Guarantees.AloneIff | receiver/githubactionsreceiver/metric_duration.go:109-117 | What is observed under the key of a series is exactly what happened to the series if and only if no other series was observed under it |
| Guarantees.SeparableAreAlone | receiver/githubactionsreceiver/metric_duration.go:109-117 | Series that can be told from their keys are alone under them |
| Guarantees.FewSeries | receiver/githubactionsreceiver/metric_duration.go:112-117 | With at most 50000 series in all there are never more live ones than the cache holds |
| Guarantees.ConfusedSeries | receiver/githubactionsreceiver/metric_duration.go:109-131 | An example: the first event of job "y" of workflow "w:x" is reported with a count of 2 after one of job "x:y" of workflow "w" |
| Guarantees.AttributesNameTargets | receiver/githubactionsreceiver/internal/metadata/generated_metrics.go:281-296 | Two points have the same attributes only if they report the same counter of the same kind |
| Counters.RunExact | receiver/githubactionsreceiver/metric_event_handling.go:138-163 | In every run over at most 2500 groups nothing is evicted: the cache holds exactly 40 keys per group and each value is the number of accepted events with that key |
| Counters.WholeGroups | receiver/githubactionsreceiver/metric_event_handling.go:146-161 | A group is cached with all 40 keys or with none, so seeding never overwrites a live counter |
| Counters.OrderIndependent | receiver/githubactionsreceiver/metric_event_handling.go:138-163 | Runs with the same events in different orders leave the same counters |
| CounterLimits.EvictionIsForced | receiver/githubactionsreceiver/metric_event_handling.go:29-29 | The bound is tight: after any run over more than 2500 groups some counter of a contacted group is gone |
| CounterLimits.CounterResets | receiver/githubactionsreceiver/metric_event_handling.go:29-29 | Over 2501 groups, whichever they are, a counter that reported 2 reports 1 at its next event |
| CounterLimits.CacheAfterValid | receiver/githubactionsreceiver/metric_event_handling.go:258-266 | With any number of groups the cache stays within its capacity and consistent |
| CounterLifetimes.CounterGoesOnIff | receiver/githubactionsreceiver/metric_event_handling.go:138-163 | After an event of its own and then any events of other counters, a counter's next event reports one more than the last if and only if none of them has overwritten it by seeding its group and fewer than 100000 other counters were used in between; otherwise it reports 1 |
| CounterLifetimes.SeedingOverwrites | receiver/githubactionsreceiver/metric_event_handling.go:146-157 | Past 2500 groups seeding overwrites a live counter: over 2501 groups one that stands at 2 and is cached is set to 0 by the event of a sibling whose counter has been evicted, and reports 1 next |
| CounterLifetimes.MissOverwrites | receiver/githubactionsreceiver/metric_event_handling.go:146-157 | An event whose own counter is not cached sets every other counter of its group to 0, cached or not |
| CounterLifetimes.OverwrittenStaysZero | receiver/githubactionsreceiver/metric_event_handling.go:146-163 | Once overwritten a counter is 0 or gone until its own next event |
| CounterLifetimes.EvictedBy | receiver/githubactionsreceiver/metric_event_handling.go:258-266 | Any cached counter is gone once as many others as the cache holds have been used |
| CounterStreams.FirstContactReports | receiver/githubactionsreceiver/metric_event_handling.go:145-163 | The first accepted event of a group reports its 40 counters once each, 39 zeros and then a one, whatever the iteration order |
| CounterStreams.LaterReports | receiver/githubactionsreceiver/metric_event_handling.go:162-163 | Every later event reports its own counter alone, one higher |
| CounterStreams.ReportedValues | receiver/githubactionsreceiver/metric_event_handling.go:138-163 | The values reported under one key count up by one to the number of events with the key |
| CountEvents.ContactOfValid | receiver/githubactionsreceiver/metric_event_handling.go:147-160 | Whatever the iteration order, an accepted event touches the 40 keys of its group, each once |
| CountEvents.StreamsAgree | receiver/githubactionsreceiver/metric_event_handling.go:145-163 | The points recorded and the values stored are the same stream |
| CountEvents.ExactPerKind | receiver/githubactionsreceiver/metric_event_handling.go:139-139 | Jobs and runs share the cache: a counter is exact for the series of one kind if and only if no event of the other kind was counted under its key |
| SharedCounters.ReadsDefault | receiver/githubactionsreceiver/metric_duration.go:16-26 | A label string is "default" if and only if that is the only label, in whatever case |
| SharedCounters.JobSharesRunKeyIff | receiver/githubactionsreceiver/metric_event_handling.go:139-139 | In colon-free repositories a job event counts under the key of some run event if and only if "default" is its only label |
| SharedCounters.SecondUnderKey | receiver/githubactionsreceiver/metric_event_handling.go:138-163 | After one event of one kind the first of the other kind under the same key reports 2 and seeds nothing |
| SharedCounters.JobAndRunAddUp | receiver/githubactionsreceiver/metric_event_handling.go:172-251 | A completed job labelled "default" followed by the completed run of the same branch makes the handler emit a first run count of 2, without the 39 zeros |
| CountEvents.SeriesCountsUp | receiver/githubactionsreceiver/metric_event_handling.go:138-163 | Per series, with no job labelled "default", samples count up by one to the number of the series' own events |
| CacheKeys.CacheKeyInjective | receiver/githubactionsreceiver/metric_event_handling.go:33-35 | With colon-free repositories two counter keys are equal if and only if all five parts are, for any labels |
| CacheKeys.ColonsMakeCacheKeysCollide | receiver/githubactionsreceiver/metric_event_handling.go:33-35 | An example: a colon in a repository name makes two different counters share a key |
| KeyCollisions.CacheKeyEqualIff | receiver/githubactionsreceiver/metric_event_handling.go:33-35 | For any text two counter keys are equal if and only if repository, colon and labels read the same and status, conclusion and branch flag are equal |
| KeyCollisions.RepositoriesCollideIff | receiver/githubactionsreceiver/metric_event_handling.go:33-35 | Two repositories have counters that share a key, for some labels, if and only if the name of one with a colon after it begins that of the other, and the rest has no capital letters |
| KeyCollisions.ColonFreeRepositoriesApart | receiver/githubactionsreceiver/metric_event_handling.go:33-35 | That takes a colon in a repository name |
| KeyCollisions.SomeLabelsMeetIff | receiver/githubactionsreceiver/metric_duration.go:16-26 | Two prefixes can be completed by label strings to the same text if and only if one continues the other without capital letters |
| CacheKeys.KeysOfCount | receiver/githubactionsreceiver/metric_event_handling.go:147-160 | n groups have 40 n different keys |
| CacheKeys.DurationKeyInjective | receiver/githubactionsreceiver/metric_duration.go:109-110 | With colon-free repositories, conclusions and, for jobs, workflow and job names, two histogram keys are equal if and only if their series are |
| CacheKeys.ColonsMakeDurationKeysCollide | receiver/githubactionsreceiver/metric_duration.go:109-110 | An example: a colon in a workflow or job name makes two job series share a histogram |
| KeyCollisions.JobKeyEqualIff | receiver/githubactionsreceiver/metric_duration.go:109-110 | With colon-free conclusions two job keys are equal if and only if the text up to the labels reads the same and conclusion and branch flag are equal |
| KeyCollisions.JobsCollideIff | receiver/githubactionsreceiver/metric_duration.go:109-110 | Two different jobs have histograms that share a key, for some labels and colon-free conclusions, if and only if "repo:workflow:job:" of one begins that of the other, and the rest has no capital letters |
| KeyCollisions.RunKeyEqualIff | receiver/githubactionsreceiver/metric_duration.go:160-161 | With colon-free conclusions two run keys are equal if and only if "repo:workflow" reads the same and conclusion and branch flag are equal |
| CacheKeys.JobAndRunKeysDiffer | receiver/githubactionsreceiver/metric_duration.go:160-161 | A job histogram and a run histogram never share a key, whatever their text |
| Telemetry.StatusTableComplete | receiver/githubactionsreceiver/internal/metadata/generated_metrics.go:77-100 | The status table lists every status but the unset one under its printed name, once |
| Telemetry.ConclusionTableComplete | receiver/githubactionsreceiver/internal/metadata/generated_metrics.go:30-63 | The conclusion table lists every conclusion but the unset one under its printed name, once |
| Telemetry.TablesSpelledOut | receiver/githubactionsreceiver/internal/metadata/generated_metrics.go:53-100 | The names the two tables know |
| Telemetry.EmissionInOrder | receiver/githubactionsreceiver/internal/metadata/generated_metrics.go:478-506 | What is buffered leaves in one resource: build information, then jobs, then runs |
| Telemetry.MetricsBuilder.RecordCountDataPoint | receiver/githubactionsreceiver/internal/metadata/generated_metrics.go:281-295 | Recording appends a point to the sum of its kind, if that sum is enabled |
| Telemetry.MetricsBuilder.RecordBuildInfoDataPoint | receiver/githubactionsreceiver/internal/metadata/generated_metrics.go:227-237 | The same for the build-info gauge |
| Telemetry.MetricsBuilder.Emit | receiver/githubactionsreceiver/internal/metadata/generated_metrics.go:478-506 | Emitting hands over the non-empty metrics in a fixed order, none at all as no resource, and leaves the buffers empty |
| Events.JobTargetIsListed | receiver/githubactionsreceiver/metric_event_handling.go:117-138 | Whatever the event says, a job counts under one of the 40 pairs of the tables |
| Events.RunTargetIsListed | receiver/githubactionsreceiver/metric_event_handling.go:199-224 | So does a run |
| HistogramStore.HistogramState.Observe | receiver/githubactionsreceiver/metric_duration.go:35-46 | The loop over the bounds increments the count, adds the duration, stamps the time and increments exactly one bucket, in place |
| HistogramStore.HistogramCache.Observe | receiver/githubactionsreceiver/metric_duration.go:112-117 | Get or create, observe in place, Add: the cache of references behaves like a cache of values, so no two series share a state |
| HistogramStore.HistogramCache.Sweep | receiver/githubactionsreceiver/metric_event_handling.go:270-278 | The sweep loop over a snapshot of the keys, peeking and removing, computes the sweep |
| Histograms.BucketIndexIsBucket | receiver/githubactionsreceiver/metric_duration.go:39-45 | The bucket the loop finds is the one whose interval (lower bound excluded, upper bound included) holds the duration |
| Histograms.ObserveSummary | receiver/githubactionsreceiver/metric_duration.go:35-46 | Observing one more duration gives the summary of one more observation: count, sum, bucket counts, last time |
| Histograms.BucketsAddUp | receiver/githubactionsreceiver/metric_duration.go:39-45 | The bucket counts add up to the number of observations |
| Histograms.SweepRemovesPrefix | receiver/githubactionsreceiver/metric_event_handling.go:270-278 | On a cache sorted by last observation the sweep removes exactly a prefix of the keys, equals a sweep that stops at the first fresh key, and keeps exactly the series seen less than 24 hours ago, unchanged |
| Histograms.AlwaysSorted | receiver/githubactionsreceiver/metric_event_handling.go:270-278 | In every reachable state the keys, oldest to newest, are sorted by their last observation |
| Histograms.SweepKeepsOnlyFresh | receiver/githubactionsreceiver/metric_event_handling.go:274-276 | After a sweep every cached series was observed less than 24 hours before it |
| Histograms.EvictsLeastRecentlyObserved | receiver/githubactionsreceiver/metric_duration.go:112-117 | When the cache is full a new series takes the place of one observed no later than any other |
| Histograms.RunSummarises | receiver/githubactionsreceiver/metric_duration.go:112-117 | As long as at most 50000 series are live the cache holds exactly the live ones, each the summary of its observations since it was last forgotten |
| Histograms.SummarisesIff | receiver/githubactionsreceiver/metric_duration.go:112-117 | The bound is exact: the cache does so at all times if and only if there are never more than 50000 live series |
| Histograms.CrowdingEvicts | receiver/githubactionsreceiver/metric_duration.go:112-117 | With more live series than that some live series is not cached |
| Histograms.WholeHistoryIff | receiver/githubactionsreceiver/metric_event_handling.go:270-278 | A series covers its whole history if and only if no sweep ever found it expired |
| Histograms.ReportedWhole | receiver/githubactionsreceiver/metric_event_handling.go:270-278 | A series that no sweep has found expired is reported with all its durations |
| Histograms.NeverReset | receiver/githubactionsreceiver/metric_event_handling.go:270-278 | With less than 24 hours between its observations a series always reports all of them |
| Lru.AddFits | receiver/githubactionsreceiver/metric_event_handling.go:258-261 | Overwriting, or inserting while there is room, loses nothing and makes the key the newest |
| Lru.AddEvicts | receiver/githubactionsreceiver/metric_event_handling.go:258-261 | Inserting into a full cache drops exactly the oldest key |
| Lru.GetProps | receiver/githubactionsreceiver/metric_event_handling.go:263-266 | Looking a key up makes it the newest and changes no entry |
| Lru.OutlivedIsEvicted | receiver/githubactionsreceiver/metric_event_handling.go:258-261 | Once as many other keys as the cache can hold have been used after a key, it is gone |
| Lru.CachedIff | receiver/githubactionsreceiver/metric_event_handling.go:258-266 | A key is cached if and only if fewer other keys than the cache can hold have been used since it was |
| Lru.Cache.Add | receiver/githubactionsreceiver/metric_event_handling.go:258-261 | The cache object inserts as the cache value does |
| Lru.Cache.Get | receiver/githubactionsreceiver/metric_event_handling.go:263-266 | The cache object looks up as the cache value does |
| Lru.Cache.Remove | receiver/githubactionsreceiver/metric_event_handling.go:274-276 | The cache object removes as the cache value does |
| Labels.SortedLabels | receiver/githubactionsreceiver/metric_duration.go:16-26 | Lower-cases and sorts a copy and joins it with commas, so that no capital letter is left; the event's labels stay as they are |
| Labels.LabelsAttribute | receiver/githubactionsreceiver/trace_attributes.go:34-44 | Lower-cases and sorts the event's own labels in place and gives the same string as the copying version, before and after the mutation |
| Labels.MutationIsInvisible | receiver/githubactionsreceiver/trace_attributes.go:34-44 | The in-place mutation does not change what the metrics compute from the same event |
| Labels.LabelStringIsLower | receiver/githubactionsreceiver/metric_duration.go:21-23 | No label string has a capital letter |
| Labels.LowerShifts | receiver/githubactionsreceiver/metric_duration.go:22-22 | Lower-casing moves each letter from A to Z by 32 and leaves every other byte alone |
| Labels.LowerEqualIff | receiver/githubactionsreceiver/metric_duration.go:22-22 | Two labels are equal after lower-casing if and only if they have the same length and agree at each place up to that shift |
| Labels.LeqIsByteOrder | receiver/githubactionsreceiver/metric_duration.go:24-24 | The order of the labels: a text precedes those it begins and those with the greater byte at the first difference |
| Labels.LabelsSpelledOut | receiver/githubactionsreceiver/metric_duration.go:16-26 | Examples: no label at all reads "no labels", and Linux and ARM64 read "arm64,linux" |
| Labels.LabelStringCanonical | receiver/githubactionsreceiver/metric_duration.go:16-26 | For comma-free labels, a single label "no labels" aside, two lists give the same string if and only if their lower-cased multisets are equal |
| Labels.ReadsLikeNoLabels | receiver/githubactionsreceiver/metric_duration.go:17-19 | A comma-free list gives "no labels" exactly when it is empty or that single label |
| Labels.CommasCollide | receiver/githubactionsreceiver/metric_duration.go:25-25 | An example: a comma in a label makes different lists give the same string |
| Labels.CommaCollidesIff | receiver/githubactionsreceiver/metric_duration.go:16-26 | One label gives the same string as the list of its comma-separated parts if and only if the lower-cased parts are in order |
| Labels.LabelStringEqualIff | receiver/githubactionsreceiver/metric_duration.go:16-26 | For any labels two lists give the same string if and only if the comma-separated parts of their sorted lower-cased labels are the same |
| LogAssembly.EntriesAreSegments | receiver/githubactionsreceiver/log_event_handling.go:298-334 | The line loop cuts a file at its timestamped lines: one entry per such line, in file order, with its time and the rest of the line plus the lines up to the next one as far as they fit |
| LogAssembly.HeadsAreTheHeads | receiver/githubactionsreceiver/log_event_handling.go:304-305 | The cuts are at all timestamped lines and nowhere else, in order |
| LogAssembly.TimestampRead | receiver/githubactionsreceiver/log_event_handling.go:354-375 | A line is taken apart at its first space: if what precedes it reads as a time, that is the time and what follows is kept, otherwise, or without a space, the line has no timestamp |
| LogAssembly.BodyIsJoined | receiver/githubactionsreceiver/log_event_handling.go:311-328 | A body is what the head line leaves and the kept lines, joined with newlines |
| LogAssembly.BodyBounded | receiver/githubactionsreceiver/log_event_handling.go:322-328 | A body never outgrows 1 MiB unless what its head line leaves already does, and then nothing is added |
| LogAssembly.BodiesBounded | receiver/githubactionsreceiver/log_event_handling.go:296-328 | With scanned lines of at most 1 MiB every body has at most 1 MiB |
| LogAssembly.KeptAllIff | receiver/githubactionsreceiver/log_event_handling.go:322-325 | Nothing is left out of a body if and only if everything together fits or there is nothing to add |
| LogAssembly.RoundTrip | receiver/githubactionsreceiver/log_event_handling.go:298-374 | Splitting the bodies at newlines and putting the timestamp prefixes back gives exactly the accepted lines, in order |
| LogAssembly.NothingLostIff | receiver/githubactionsreceiver/log_event_handling.go:300-325 | All non-empty lines are accepted if and only if none precedes the first timestamp and every segment fits as a whole |
| JobLogs.FinalizeLogEntry | receiver/githubactionsreceiver/log_event_handling.go:341-352 | Appends a record with the builder's time and body, the step number and trace identifiers only when asked for, and resets the builder |
| JobLogs.ProcessLine | receiver/githubactionsreceiver/log_event_handling.go:298-329 | What one line does to builder and records, in every branch |
| JobLogs.ProcessLogEntries | receiver/githubactionsreceiver/log_event_handling.go:292-339 | The loop over the builder is the fold over the lines, whatever the builder held before, and it leaves no entry open |
| JobLogs.ProcessLogFile | receiver/githubactionsreceiver/log_event_handling.go:239-269 | A file skipped for its name or because it cannot be opened leaves the builder reset and adds nothing; any other adds its own records |
| JobLogs.ProcessJobLogs | receiver/githubactionsreceiver/log_event_handling.go:220-237 | Reading a job's files through one reused builder gives exactly the concatenation of reading each with a fresh one |
| JobLogs.EventToLogs | receiver/githubactionsreceiver/log_event_handling.go:46-89 | A completed run gives one scope per job of the archive, in the order of the names, each with the records of that job's files; any other run gives nothing |
| JobLogs.RecordPerHead | receiver/githubactionsreceiver/log_event_handling.go:292-352 | An archive entry with a step number gives one record per timestamped line: the time before its first space, what follows the space and the kept lines as body, the step number, and the identifiers of trace and step span if and only if they are wanted |
| JobLogs.RecordsRoundTrip | receiver/githubactionsreceiver/log_event_handling.go:292-374 | Splitting the bodies of a file's records at newlines and putting the timestamps back gives the accepted lines in order, and all non-empty lines if and only if no line precedes the first timestamp and every segment fits |
| JobLogs.RecordsCarryStepSpan | receiver/githubactionsreceiver/log_event_handling.go:251-268 | A log record from the file of step n of a job carries the identifiers of the span the job's own, separately delivered event makes for step n |
| ZipLogs.ExtractJobsAndFiles | receiver/githubactionsreceiver/log_event_handling.go:181-218 | The loop over the archive gives the strictly sorted jobs of directories and files, and for each job its files in archive order |
| ZipLogs.SortedKeys | receiver/githubactionsreceiver/log_event_handling.go:213-214 | Collecting the keys in any order and sorting gives a strictly increasing listing of exactly the set |
| ZipLogs.GroupingIsPartition | receiver/githubactionsreceiver/log_event_handling.go:189-211 | Every file with a slash in its name lands in exactly one list, exactly as often as it is in the archive |
| ZipLogs.ListedUnderItsJob | receiver/githubactionsreceiver/log_event_handling.go:197-205 | A listed file belongs to the job it is listed under, and that job is among the jobs |
| ZipLogs.ListedIff | receiver/githubactionsreceiver/log_event_handling.go:192-211 | A job is listed if and only if an entry is its directory, with or without the slash at the end, or a file whose name begins with the job's, which has no slash, and a slash |
| ZipLogs.FileOfIff | receiver/githubactionsreceiver/log_event_handling.go:197-205 | A file belongs to a job if and only if its name begins with the job's, which has no slash, and a slash |
| ZipLogs.GroupedFilesHavePrefix | receiver/githubactionsreceiver/log_event_handling.go:271-276 | A grouped file's name starts with its job and a slash, and the missing-prefix error happens exactly when there is nothing after that |
| ZipLogs.StepFileRoundTrip | receiver/githubactionsreceiver/log_event_handling.go:271-290 | Naming a file job/n_suffix and reading it back gives the job if and only if its name has no slash, and n for every n of int64 and every suffix; beyond int64 it gives a range error |
| ZipLogs.StepNumberAfterJob | receiver/githubactionsreceiver/log_event_handling.go:272-276 | Only what follows the job's name and the slash decides the step number |
| ZipLogs.StepNumbersSpelledOut | receiver/githubactionsreceiver/log_event_handling.go:278-289 | The file system.txt is skipped as the runner's own, a name that begins with no number is refused, an empty one lacks the prefix, and a bare number is read without an underscore |
| Text.AtoiDecimal | receiver/githubactionsreceiver/log_event_handling.go:285-289 | Reading a printed number gives it back, or a range error beyond int64 |
| Text.NumeralsSpelledOut | receiver/githubactionsreceiver/log_event_handling.go:285-289 | Examples: a plus sign and leading zeros are read, an empty text, a lone sign and a trailing letter are not |
| Text.DecimalInjective | receiver/githubactionsreceiver/trace_event_handling.go:218-280 | Different numbers print differently |
| TraceIdentity.TraceIsNotRoot | receiver/githubactionsreceiver/trace_event_handling.go:218-258 | The text hashed for a trace is never the text hashed for a root span, whatever the arguments |
| TraceIdentity.IdentifiersSpelledOut | receiver/githubactionsreceiver/trace_event_handling.go:218-280 | An example with every text hashed for attempt 2 of run 61, and which bytes of the digest traces and spans take |
| TraceIdentity.TraceTextUnique | receiver/githubactionsreceiver/trace_event_handling.go:218-219 | For one run, and for runs whose numbers have equally many digits, the trace text determines run and attempt; in general it is equal exactly when the digits read the same |
| TraceIdentity.RunsCollideIff | receiver/githubactionsreceiver/trace_event_handling.go:218-219 | Two runs have attempts that share a trace text if and only if the number of one continues the number of the other with digits that do not start with 0 and that an int64 attempt can begin with |
| TraceIdentity.AttemptsCollide | receiver/githubactionsreceiver/trace_event_handling.go:218-258 | Attempt 23 of run 1 and attempt 3 of run 12 hash the same texts, for the trace and every span |
| TraceIdentity.SpanTextsDistinctIff | receiver/githubactionsreceiver/trace_event_handling.go:232-280 | Root, job and step spans of an attempt hash pairwise different texts if and only if no job is called "s" and no name is another followed by a step number (for negative numbers also: by a minus sign) |
| TraceIdentity.UnnumberedNames | receiver/githubactionsreceiver/trace_event_handling.go:232-280 | Job names not ending in a digit, none of them "s", satisfy that condition for natural step numbers |
| TraceIdentity.NamesCollide | receiver/githubactionsreceiver/trace_event_handling.go:268-269 | Step 11 of "build" and step 1 of "build1" hash the same text, and so do step -1 of "x" and step 1 of "x-" |
| TraceIdentity.SpanIdsDistinctIff | receiver/githubactionsreceiver/trace_event_handling.go:232-280 | For every list of spans of an attempt, short of a digest collision among just these, the identifiers are distinct: this holds if and only if the names are separable |
| TraceIdentity.InseparableNames | receiver/githubactionsreceiver/trace_event_handling.go:232-280 | Names that are not separable give two spans with the same text, which no digest can tell apart |
| TraceIdentity.CollisionsAvoidable | receiver/githubactionsreceiver/trace_event_handling.go:232-280 | For any attempt of at most 256 spans some digest function collides on none of them, so the assumption can be met |
| Traces.StatusOf | receiver/githubactionsreceiver/trace_event_handling.go:90-108 | The status loop, which stops at the first failure, gives an error if any step failed, ok if all are completed and successful, unset otherwise |
| Traces.CreateParentSpan | receiver/githubactionsreceiver/trace_event_handling.go:64-113 | Appends the job span: identifiers, times from the first and last step or from the job, status from the steps |
| Traces.CreateSpan | receiver/githubactionsreceiver/trace_event_handling.go:170-216 | Appends the step span, and writes a missing completion time back into the step |
| Traces.ProcessSteps | receiver/githubactionsreceiver/trace_event_handling.go:282-286 | One span per step, in order, even if steps are shared objects; every step ends up settled |
| Traces.CreateRootSpan | receiver/githubactionsreceiver/trace_event_handling.go:121-168 | Appends the root span, with a link to the previous attempt's trace when there was one |
| Traces.JobEventToTraces | receiver/githubactionsreceiver/trace_event_handling.go:26-40 | A job event gives one scope: the job span and then the step spans of the steps as they were received |
| Traces.JobSpanFields | receiver/githubactionsreceiver/trace_event_handling.go:81-110 | The job span has the job's name and conclusion; it lasts from the start of the first step to the completion of the last, or the job's own times without steps; error if and only if a step failed, ok if and only if all are completed and successful |
| Traces.StepSpanFields | receiver/githubactionsreceiver/trace_event_handling.go:176-213 | The i-th step span has the i-th step's name, conclusion, times and attributes, a missing completion being taken for the start, ok or error exactly for success or failure, and says whether the head is the default branch |
| Traces.RootSpanFields | receiver/githubactionsreceiver/trace_event_handling.go:132-165 | The root span has the run's name, conclusion and times, ok or error exactly for success or failure, and one link if and only if it is a repeated attempt |
| Traces.RunEventToTraces | receiver/githubactionsreceiver/trace_event_handling.go:42-54 | A run event gives an empty scope and one with the root span |
| Traces.SpansCarryNodes | receiver/githubactionsreceiver/trace_event_handling.go:64-190 | The spans of separately delivered events of an attempt agree: same trace, each under the identifier of its parent |
| Traces.AttemptIsTree | receiver/githubactionsreceiver/trace_event_handling.go:64-286 | All spans of an attempt, from the run event and the job events together, lie in one trace, have distinct identifiers, and form a tree: the root span first, each other under an earlier one (distinct separable job names, distinct step numbers, no digest collision among these spans) |
| Traces.SomeDigestGivesTree | receiver/githubactionsreceiver/trace_event_handling.go:64-286 | For every such attempt of at most 256 spans there is a digest function under which it is a tree |
| Traces.OneJobIsTree | receiver/githubactionsreceiver/trace_event_handling.go:64-286 | An attempt with one job, "build", and one step gives a tree of three spans under some digest function |
| Traces.NodesDistinct | receiver/githubactionsreceiver/trace_event_handling.go:282-286 | Distinct jobs with distinct step numbers stand for distinct spans |
| Traces.LinkNamesPreviousAttempt | receiver/githubactionsreceiver/trace_event_handling.go:154-162 | The link of attempt k is the trace of attempt k-1 as its own event names it, and its text is not that of attempt k |
| SharedComponents.AlwaysConsistent | internal/sharedcomponent/sharedcomponent.go:30-76 | After every sequence of calls a component is in the map under its key exactly while it has not been shut down, and its own Start and Shutdown have each run at most once |
| SharedComponents.OneLivePerKey | internal/sharedcomponent/sharedcomponent.go:30-42 | At most one component per key is not shut down |
| SharedComponents.RepeatedShutdownHarmless | internal/sharedcomponent/sharedcomponent.go:69-75 | Shutting an old component down again changes nothing; its successor stays in the map |
| SharedComponents.CallsTakeEffect | internal/sharedcomponent/sharedcomponent.go:60-75 | A component has been started, or stopped, if and only if somebody holding it asked for that |
| SharedComponents.SameInstanceIff | internal/sharedcomponent/sharedcomponent.go:30-42 | Asking for a key again gives the same component if and only if it has not been shut down meanwhile, and otherwise another that is not shut down |
| SharedComponents.SharedComponents.GetOrAdd | internal/sharedcomponent/sharedcomponent.go:30-42 | The object looks up or creates as the registry value does |
| SharedComponents.SharedComponents.Start | internal/sharedcomponent/sharedcomponent.go:60-66 | The wrapped Start runs, and its error is returned, the first time only |
| SharedComponents.SharedComponents.Shutdown | internal/sharedcomponent/sharedcomponent.go:69-75 | The wrapped Shutdown runs, its error is returned and the key is deleted, the first time only |
| DroneLogs.GenerateLogs | receiver/dronereceiver/handler.go:191-227 | The loop gives one record per line, with the timestamp of its second and its delta |
| DroneLogs.DeltaIsPosition | receiver/dronereceiver/handler.go:207-212 | A line's delta is its position among the uninterrupted lines of its second, counted from 0, or from 1 if the log begins in second 0 |
| DroneLogs.StampModular | receiver/dronereceiver/handler.go:219-219 | However often the int64 arithmetic wraps around, the timestamp is right modulo 2^64 |
| DroneLogs.NoOverflow | receiver/dronereceiver/handler.go:219-219 | Up to second 9223372035 no step of the computation overflows |
| DroneLogs.StampExact | receiver/dronereceiver/handler.go:204-219 | With fewer than 10^9 lines in seconds 0 to 18446744072 a timestamp is the line's second plus its delta, and dividing by 10^9 gives the second back |
| DroneLogs.SecondRecoveredIff | receiver/dronereceiver/handler.go:219-219 | The second can be read back if and only if the exact number of nanoseconds fits a timestamp |
| DroneLogs.StampsIncreaseIff | receiver/dronereceiver/handler.go:204-219 | In that range the timestamps are strictly increasing if and only if the lines are in time order |
| DroneLogs.StampsDistinctIff | receiver/dronereceiver/handler.go:204-219 | In that range the timestamps are pairwise distinct if and only if no second is resumed after another one (second 0 at the beginning of a log may be resumed by one single line) |
| DroneLogs.FirstSecondSkipsZero | receiver/dronereceiver/handler.go:204-208 | Because the first comparison is with 0, a log beginning in second 0 starts at nanosecond 1 |
| DroneLogs.OutOfOrderCollide | receiver/dronereceiver/handler.go:207-212 | An example: lines of one second that are not neighbours get the same timestamp |
| DroneTraces.HandleEvent | receiver/dronereceiver/handler.go:28-189 | A build is delivered if and only if repository and build are there, it is finished, the repository is configured and the branch is in its list; without a repository the handler fails, and anything else is dropped; what is delivered is what the loops over stages and steps give |
| DroneTraces.SpansTellBuild | receiver/dronereceiver/handler.go:78-175 | A delivered build gives a scope with its own span, from creation to end, and one scope per stage: the stage's span and one for each step that was not skipped, in order, with name, start, end and a code that is error exactly for failure and error, ok exactly for success |
| DroneTraces.SpansAreTree | receiver/dronereceiver/handler.go:78-175 | A delivered build has one span for itself, one per stage and one per step not skipped, in one trace, with distinct identifiers, each but the first under an earlier one |
| DroneTraces.LogsBelongToSteps | receiver/dronereceiver/handler.go:151-184 | The i-th log consists of the records of the lines fetched for the i-th step that ran and has a log, under the identifier of exactly that step's span, which stands under the span of its own stage; the identifiers increase |
| DroneTraces.SitesComplete | receiver/dronereceiver/handler.go:151-184 | The list of those steps has every step that ran and whose log could be fetched once, in the order of the build, and no other |
| DroneTraces.SecondKept | receiver/dronereceiver/handler.go:98-99 | A span time is the second's nanoseconds if and only if they fit a timestamp |

## Left out

- HTTP serving, signature validation, JSON decoding, downloading and unpacking archives, receiver start and stop, the GitHub and Drone clients: the model starts from decoded events, archive entries and lines.
- The source of github.com/hashicorp/golang-lru/v2 is not part of this model; only its documented behaviour is.
- time.Parse (section 5.6 of RFC 3339), stripping a byte order mark and trimming spaces are one parameter that reads the token before the first space.
- SHA-256 and hexadecimal encoding are a parameter from texts to 32 bytes; collisions of the truncated digest are assumed away where a lemma says so.
- Random trace and span identifiers of the Drone receiver are numbered in the order they are drawn, that is, taken to be fresh.
- Rounding of floating-point durations and sums; durations are real.
- Lower-casing outside ASCII.
- Splitting the byte stream into lines (a trailing carriage return, the error on a line of 1 MiB): a file is the lines the scanner yields.
- Resource attributes, URL rewriting, service names, descriptions, units, capacity hints and logging: straight-line copying.
- Job events without a repository or payload in the trace path: the code dereferences them and fails; the model of traces starts from events that have both.
- The run handler reads the time of its points before it takes the lock, so points of runs need not be emitted in the order of their timestamps; no order of point timestamps is claimed. The times read under the lock are claimed to be ordered.
- The generated code declares the status and conclusion enumerations once for jobs and once for runs, with equal values; the model has one of each.
- The two handlers repeat the counting block; the model has it once, with the kind as a parameter, and splits its nested loop into methods.
- Text.AtoiDecimal: speaks of printed numbers; a text that is both too large and malformed is a syntax error in the model, while the source may call it a range error. Either way the file is skipped.
- Delivery to consumers after the lock is released.
- Concurrent calls of a shared component, and components that use the registry while they start or stop: calls are taken one after the other.
- The Drone scraper, the copy of the shared-component registry in the Drone receiver, configuration and factories.
- Steps whose two numbers agree are answered alike by a server; the model gives every step its own answer, which is more general.
- Progress.NeverStuck: speaks of the readings fixed in a call; Progress.NoDeadlock lets waiting threads take later ones.
- KeyCollisions.JobsCollideIff: assumes conclusions without colons, as all of GitHub's are.
- Telemetry.MetricsBuilder.Emit: does not model the resource and scope attributes of an emission, because the handler sets none.
- TraceIdentity.UnnumberedNames: gives the readable sufficient condition for natural step numbers; SpanTextsDistinctIff is the exact one.
