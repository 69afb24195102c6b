# zeus-gslb: a verified model of the responder

zeus-gslb answers DNS queries for one global zone out of a decision bundle. This
project models the parts that decide and remember: the flap damper, the candidate
walk, the local health machine and its probe scheduler, the health reporter, the
bundle store with its cache file, the event stream and the reply classification. It
proves properties of whole runs of them.

State that the program updates in place is a class whose methods are proved against
functions of the old state; the theorems are lemmas about those functions, over every
sequence of calls. Time is an integer count of nanoseconds, and a run's clock never
goes back where a lemma says `Monotone` or `Outage`.

| file | part |
|---|---|
| `Bundles.dfy` | bundle datatypes |
| `Answers.dfy` | comparing answer sets |
| `Damper.dfy` | flap damping, and the damper that never forgets |
| `Evaluator.dfy`, `EvaluatorRuns.dfy`, `Failover.dfy` | candidate walk, whole runs of it, forced moves |
| `Handler.dfy`, `Spelling.dfy` | reply classification, names with and without their trailing dot |
| `Machine.dfy`, `Targets.dfy`, `ProbeRunner.dfy` | health machine, target dedupe, probe scheduling |
| `FailoverLatency.dfy`, `FailoverGap.dfy` | from a failing probe to a changed answer, and a life in which it does not change |
| `Reporter.dfy` | health reporter as interleaved steps |
| `Store.dfy`, `StoreRuns.dfy` | validation, cache file, boot, reload, crashes |
| `Sse.dfy`, `Backoff.dfy` | event dispatch and hand-off, reconnect delays |

## Where the code and its comments differ

The model follows the code.

- "A forced move is ALWAYS allowed" (`internal/dnsserver/damper.go:49-51`) holds only when
  the walk reaches the failed candidate. In single mode the walk stops at the first
  viable candidate (`internal/dnsserver/evaluate.go:114-116`), so a record frozen on a later
  candidate keeps serving it after it turns unhealthy. `FailoverGuaranteedExactly` gives
  the exact condition; `StuckOnUnhealthy` is a life of one unchanged record, probed and
  queried once a second, that shows it.
- `lastRun` is never pruned (`internal/checks/runner.go:113-134`, against the comment at
  94-98): `RemovedTargetKeepsSchedule`, `ReturningTargetIsNotFresh`.
- A k8s check without a lister is built and reports down (`internal/checks/prober.go:95-98`
  and 112-113), it is not skipped as `internal/checks/runner.go:42-43` says:
  `ListerlessK8sGoesDown`.
- `NewStore` reads the bundle file once to validate and again to cache
  (`internal/bundle/store.go:32-38`): `CacheIntactExactly`, `BadReReadBricksBoot`. The rows below
  call a boot whose first read is valid, and whose second reads and saves bytes that are not, a
  bad re-read.
- A suppressed attempt restarts the quiet clock (`internal/dnsserver/damper.go:73-76`), so a
  steady differing candidate can hold a record frozen for ever: `FrozenWhileOfferedOften`.
- The damper and the active keys are kept under the record's own spelling
  (`internal/dnsserver/evaluate.go:79` and 129-135), while names are compared with a trailing dot
  put on and in lower case (`internal/dnsserver/handler.go:158-166`). A bundle that respells a
  frozen record, with or without the dot, has its damping forgotten: `SpellingMattersExactly`.
- The cache directory is not flushed after the rename (`internal/bundle/bundle.go:229-233`),
  so power loss can undo a save: `SavesSurvivePowerLossExactly` and, as a life from nothing,
  `FirstSaveCanBeLost`.
- Doubling a delay can wrap in 64 bits for caps above 2^62
  (`internal/remote/runner.go:130-135`): `CappedExactlyWithoutOverflow`, `DelayCanWrap`.

## Assumptions

- Calls of `Resolve` are serialised. The program takes no lock around the damper
  (`internal/dnsserver/evaluate.go:129`), so truly concurrent calls are outside the model. The
  health machine may still change between any two candidates of one walk.
- A rename of a flushed file is atomic. A power loss may undo renames and may leave any
  bytes in a file that was not flushed.
- JSON decoding, IPv4 parsing, lower-casing and zone membership are given deterministic functions. A
  probe, a fetch and a send have arbitrary outcomes.

## Model

| member | source | states |
|---|---|---|
| `Answers.AnswerKeyInjective` | internal/dnsserver/damper.go:139-141 | answers with equal keys are equal, for every (string, int) pair, colons in the IP included |
| `Answers.AnswerSetEqual` | internal/dnsserver/damper.go:121-137 | the count-and-decrement loops decide multiset equality of answers |
| `Damping.PruneWindow` | internal/dnsserver/damper.go:110-119 | compacts the array in place to exactly the times inside the window |
| `Damping.Damper.Evaluate` | internal/dnsserver/damper.go:53-90 | one call changes one record by the damper's step, no other, and returns its served set |
| `Damping.Damper.MaybeAutoUnfreeze` | internal/dnsserver/damper.go:100-108 | unfreezes and clears the log after 20 quiet minutes, otherwise changes nothing |
| `Damping.RefinesFullHistory` | internal/dnsserver/damper.go:61-119 | after every call of every monotone trace, served set, freeze and quiet clock equal those of a damper that never prunes or clears its history |
| `Damping.RateBound` | internal/dnsserver/damper.go:53-119 | every half-open 10-minute window of every run holds at most 3 accepted non-forced changes, across freezes, forced moves and log clearing |
| `Damping.AppliedExactly` | internal/dnsserver/damper.go:61-89 | a differing non-forced set is applied if and only if the record is not frozen (or quiet for 20 minutes) and fewer than 3 changes were observed in the last 10 minutes |
| `Damping.FrozenWhileOfferedOften` | internal/dnsserver/damper.go:73-76 | a frozen record offered a steady differing set keeps its old set exactly while no gap between attempts reaches 20 minutes |
| `Evaluation.Viable` | internal/dnsserver/evaluate.go:152-162 | local reading gates a locally checked candidate, pushed health decides during post-boot grace and otherwise |
| `Evaluation.Walk` | internal/dnsserver/evaluate.go:73-118 | the loop gathers exactly the contributors and detects a forced move exactly when an inspected active candidate is unhealthy |
| `Evaluation.ContributorsExactly` | internal/dnsserver/evaluate.go:92-118 | candidate i contributes if and only if it serves and (in single mode) no serving candidate precedes it |
| `Evaluation.PushedHealthDecides` | internal/dnsserver/evaluate.go:152-162 | a candidate without a local check, or whose target is unknown and never checked, contributes if and only if it has answers, is not pushed as "unhealthy" and (unless the mode is "all") none before it contributes |
| `Evaluation.LocalHealthDecides` | internal/dnsserver/evaluate.go:153-159 | any other candidate does so by its local state, whatever was pushed |
| `Evaluation.FreshIsTheUnion` | internal/dnsserver/evaluate.go:111-127 | the union holds each answer as often as the contributing candidates offer it together, each candidate's answers in its place |
| `Evaluation.FreshKeysExactly` | internal/dnsserver/evaluate.go:111-113 | the keys gathered are exactly the contributing candidates' |
| `Evaluation.Evaluator.Resolve` | internal/dnsserver/evaluate.go:63-140 | answer, damper records and active keys after one call, for the legacy path, SERVFAIL and the walk |
| `EvaluationRuns.ActiveKeysMatchServed` | internal/dnsserver/evaluate.go:124-137 | over every run active keys and damper records have the same names, and each served set is, as a multiset, what its active keys contributed in the last applied round, and is non-empty |
| `EvaluationRuns.AnswersAreAUnion` | internal/dnsserver/evaluate.go:124-139 | in every run what a candidate-walk call returns is the union of what contributed to the last applied call for its name, and the active keys are exactly that call's contributing keys |
| `EvaluationRuns.AppliedExactly` | internal/dnsserver/evaluate.go:129-136 | a call returns its own walk if and only if it is the name's first, forced or no change, or the name is not frozen (or quiet for 20 minutes) and changed fewer than 3 times in the last 10 minutes |
| `EvaluationRuns.FailsExactlyWhenNoneServes` | internal/dnsserver/evaluate.go:100-122 | a candidate-walk record fails if and only if no candidate serves, whatever the damper state; it never serves an empty set |
| `EvaluationRuns.NamesAreIndependent` | internal/dnsserver/evaluate.go:78-137 | in any interleaved run a call answers as after the calls for its own name alone |
| `EvaluationRuns.AnswerRateBound` | internal/dnsserver/evaluate.go:124-139 | the answers that candidate-walk calls of `Resolve` return for a name change at most 3 times in any 10-minute window, forced moves aside; the legacy path is not damped |
| `Failover.ForcedFailoverBeatsFreeze` | internal/dnsserver/evaluate.go:92-139 | an unhealthy active candidate that the walk reaches is left at once in every reachable state, frozen or not |
| `Failover.FailoverGuaranteedExactly` | internal/dnsserver/evaluate.go:92-129 | that failover is guaranteed over all runs if and only if the walk reaches an unhealthy candidate of the key |
| `FailoverGap.ReadingFollowsProbe` | internal/checks/runner.go:113-134 | in the witness life every pass over the targets built from the record is due and its result alone sets the health the evaluator reads |
| `FailoverGap.StuckOnUnhealthy` | internal/dnsserver/evaluate.go:114-116 | one unchanged record, probed and queried once a second with the machine's own readings, is frozen on an unhealthy candidate from the tenth second on, for ever, while a healthy one is first |
| `Handler.Lookup` | internal/dnsserver/handler.go:158-166 | finds the record of least index whose name, dotted unless it is, equals the asked one after lower-casing both |
| `Handler.DnsHandler.AnswerA` | internal/dnsserver/handler.go:99-135 | fills the reply with one A record per parsable answer, SERVFAIL when there is none |
| `Handler.DnsHandler.ServeDns` | internal/dnsserver/handler.go:47-97 | the whole reply and the new evaluator state for every request |
| `Handler.Classification` | internal/dnsserver/handler.go:47-187 | REFUSED exactly for other than one question or an out-of-zone name; NXDOMAIN exactly for an unknown in-zone name and exactly with the zone's SOA for 5 seconds; empty NOERROR exactly for a known name and another type than A; answers only with NOERROR; only A queries for known names touch the evaluator (section 4.1.1 of RFC 1035, sections 2.1 and 2.2 of RFC 2308) |
| `Handler.KnownAIsAnswerOrServfail` | internal/dnsserver/handler.go:99-135 | an A query for a known name gets NOERROR with a record or SERVFAIL with none, never NXDOMAIN |
| `Handler.ServfailExactly` | internal/dnsserver/handler.go:105-134 | over every run, SERVFAIL for a candidate-walk record if and only if no candidate serves, or the round being served contributed no IPv4 address; otherwise one record per served IPv4 answer, in order |
| `Handler.LegacyReplyExactly` | internal/dnsserver/handler.go:105-134 | a record without candidates gets SERVFAIL if and only if its state is neither "ok" nor "degraded" or it has no IPv4 answer, otherwise one record per IPv4 answer |
| `Spelling.SpellingIsIrrelevant` | internal/dnsserver/handler.go:71-72 | the reply is the same with or without the trailing dot of the question and the domain, and of the records where the evaluator remembers the same under both spellings |
| `Spelling.SpellingMattersExactly` | internal/dnsserver/evaluate.go:78-137 | over all runs before it, the reply depends on such a dot if and only if the record found, spelled differently, is answered through the damper, has a serving candidate, and some address has an IPv4 form |
| `Handler.UnparsableFirstHidesLater` | internal/dnsserver/handler.go:117-134 | a single-mode record whose first serving candidate has no IPv4 address fails although a later serving one has |
| `Machine.StateMachine.RecordResult` | internal/checks/machine.go:65-95 | the new state of one key, no other changed, and whether its health moved |
| `Machine.StateMachine.State` | internal/checks/machine.go:100-108 | the key's health, Unknown for a key never recorded |
| `Machine.StateMachine.States` | internal/checks/machine.go:126-134 | the health of every recorded key |
| `Machine.HealthIsLatestDecisive` | internal/checks/machine.go:65-108 | health is set by the latest result that completed a same-direction run as long as its own call's threshold, and is Unknown if there is none |
| `Machine.NeverUnknownAgain` | internal/checks/machine.go:76-92 | a known health never returns to Unknown |
| `Machine.MovesAlternate` | internal/checks/machine.go:76-94 | transitions of a key strictly alternate between Healthy and Unhealthy |
| `Machine.FlapsAreBounded` | internal/checks/machine.go:76-94 | t transitions within the first n results of a key satisfy floor(t/2) * (F + R) <= n |
| `Machine.FlapsInWindowAreBounded` | internal/checks/machine.go:76-94 | in any window of n results after any history, t > 0 transitions satisfy floor((t-1)/2) * (F + R) < n |
| `Machine.KeysAreIndependent` | internal/checks/machine.go:48-95 | in any interleaving a key's state is what its own results make it |
| `Targets.BuildTargets` | internal/checks/runner.go:47-85 | the nested loops compute the merge of all checks, one prober each |
| `Targets.TargetsExactly` | internal/checks/runner.go:47-85 | the first check of a key, in record order, is a target if and only if its probe is "tcp", "http" or "k8s", with that prober and its arguments; it has the least positive interval over all checks of the key and its own other fields |
| `Targets.TargetsHaveChecks` | internal/checks/runner.go:75-83 | every target's key has such a first check |
| `Targets.OrderOfRecordsIsIrrelevant` | internal/checks/runner.go:34-40 | if occurrences agree apart from interval, permuting or repeating records changes no target, except between intervals that both stand for the default |
| `ProbeRunner.ListerlessK8sGoesDown` | internal/checks/prober.go:95-113 | a key first checked by k8s without a lister is built, and is Unhealthy by s + F * (I + d) in every run whose bundles, changing or not, list it so from s on, whatever its endpoints do |
| `ProbeRunner.Runner.RunOnce` | internal/checks/runner.go:113-134 | every key makes its own scheduling step, in any visiting order; the callback fires once for exactly the keys whose health changed |
| `ProbeRunner.Run` | internal/checks/runner.go:142-158 | after any ticks each key is where its own passes alone put it |
| `ProbeRunner.ProbedExactly` | internal/checks/runner.go:117-126 | a listed pass completes a check cycle if and only if no pass did before, or intervalMs milliseconds (one second if not positive) have passed since the last that did; an unlisted one changes nothing |
| `ProbeRunner.HealthReadsProbes` | internal/checks/runner.go:117-133 | a key's health is the machine's reading of the results of its due passes |
| `ProbeRunner.DetectedInTime` | internal/checks/runner.go:113-134 | failing from s on with passes at most d apart means Unhealthy at every time from s + F * (I + d), between passes too, whatever happened before |
| `ProbeRunner.TransitionsAreSpaced` | internal/checks/runner.go:117-133 | consecutive transitions are at least the second direction's threshold times the interval apart, and alternate |
| `ProbeRunner.RemovedTargetKeepsSchedule` | internal/checks/runner.go:113-134 | a target that leaves the list and returns keeps its schedule and its counters, and is probed on return if and only if the interval has passed since its last probe |
| `ProbeRunner.ReturningTargetIsNotFresh` | internal/checks/runner.go:94-98 | a target relisted within its interval is not probed, and a failure before its removal counts as consecutive with one after |
| `FailoverLatency.GraceEndsWithFirstProbe` | internal/dnsserver/evaluate.go:152-162 | with the real machine behind it, the pushed health decides exactly before the first completed probe |
| `FailoverLatency.FailoverIsBounded` | internal/dnsserver/evaluate.go:92-139 | probe failures from s on make every call made at time s + F * (I + d) or later that reaches the active candidate answer without it, frozen or not |
| `Reporting.HealthReporter.NotifyTransition` | internal/remote/reporter.go:50-61 | without interruption, queues the transition and leaves a token in the wake slot |
| `Reporting.SendRound` | internal/remote/reporter.go:113-139 | at most six attempts, stops at the first success or cancellation, delivers exactly on success; its attempts are the sends that take the interleaved system's sender back to waiting |
| `Reporting.NoLostWakeup` | internal/remote/reporter.go:50-99 | with any number of notifiers, pending transitions imply a token, a woken sender or a notifier about to offer one |
| `Reporting.QuiescentMeansSent` | internal/remote/reporter.go:83-99 | at rest nothing is pending |
| `Reporting.QueueIsConserved` | internal/remote/reporter.go:53-99 | what was queued is what was reported, held and pending, in order, nothing lost or repeated |
| `Reporting.StatesNeverLagTransitions` | internal/remote/reporter.go:95-111 | reported transitions are a prefix of the machine's history, and each report shows every key with a result, and its health, after a prefix of the history that holds those transitions |
| `Reporting.QuiescentReportIsCurrent` | internal/remote/reporter.go:10-17 | at rest the last report's states agree with the machine on every key |
| `Reporting.TransitionsAreMoves` | internal/checks/runner.go:129-132 | the machine's transition history is, key by key, the moves that the key's own results make |
| `Reporting.EveryRoundReports` | internal/remote/reporter.go:83-111 | a heartbeat or a token builds one more report, however notifiers interleave: all that is pending at the swap, if anything, and every recorded key at the snapshot |
| `Reporting.RestIsReachable` | internal/remote/reporter.go:50-99 | from every reachable state with a running sender, finishing what is under way leads to rest, with all that was queued reported in order |
| `Store.ParseAndValidate` | internal/bundle/bundle.go:157-177 | accepts exactly bundles of version 1 with a domain, names and positive TTLs, and otherwise reports the first fault |
| `Store.CacheDir.SaveCache` | internal/bundle/bundle.go:204-234 | whatever step fails or is cut by a crash, the cache file is the old one or the full flushed bytes |
| `Store.BundleStore.ApplyBundle` | internal/bundle/store.go:146-157 | swaps and saves exactly a valid bundle, changes nothing otherwise |
| `Store.BundleStore.ApplyIfChanged` | internal/bundle/store.go:166-183 | applies exactly a valid bundle with another content hash |
| `Store.BundleStore.ReloadIfChanged` | internal/bundle/store.go:102-136 | applies a changed valid file, remembers the time of a bad one, otherwise changes nothing |
| `Store.BundleStore.BootFromFetch` | internal/bundle/boot_fetch.go:19-71 | boots from the first attempt made that returns a valid bundle, otherwise from the cache |
| `Store.BundleStore.BootFromFile` | internal/bundle/store.go:29-52 | boots from the file if its first read is valid, otherwise from the cache |
| `StoreRuns.CacheNeverPartial` | internal/bundle/bundle.go:200-234 | over every life without a bad re-read, with crashes between any two save steps and power losses, the cache is absent or the full bytes of a validated bundle |
| `StoreRuns.CacheIntactExactly` | internal/bundle/store.go:32-38 | over every life the cache is intact at every moment if and only if no file boot read valid bytes first and then saved others that are not valid |
| `StoreRuns.BadReReadBricksBoot` | internal/bundle/store.go:32-38 | a life without power loss in which such a boot spoils a valid cache and the next boot fails |
| `StoreRuns.CacheIsLastSaved` | internal/bundle/store.go:146-157 | without power loss the cache holds the bytes of the last completed save |
| `StoreRuns.RebootServesLastSaved` | internal/bundle/boot_fetch.go:62-70 | once a save succeeded, whatever happened before it, a reboot with no valid fetch serves the last bundle saved |
| `StoreRuns.BootsAfterPowerLoss` | internal/bundle/boot_fetch.go:62-70 | a responder that started with a valid cache can boot from the cache at every moment of a life without a bad re-read, renames lost with the power included |
| `StoreRuns.PowerLossHarmlessExactly` | internal/bundle/bundle.go:229-233 | a power loss is sure to leave a bootable cache if and only if no value it may bring back is an absent file |
| `StoreRuns.SavesSurvivePowerLossExactly` | internal/bundle/bundle.go:229-233 | on every life that began without a cache and has no bad re-read, the next power loss is sure to leave one if and only if an earlier power loss already did |
| `StoreRuns.FirstSaveCanBeLost` | internal/bundle/bundle.go:229-233 | from a stopped responder and an empty directory, a life in which the first save is done, the power fails and the next boot fails |
| `StoreRuns.PushIsServedExactly` | internal/bundle/store.go:166-183 | a push of acceptable bytes with no hash or another than the one served is served, and cached unless its save did not complete; any other push changes nothing |
| `StoreRuns.PollIsServedExactly` | internal/bundle/store.go:102-136 | a poll takes acceptable bytes if and only if the file's time is not the one remembered, and remembers the time of any file read |
| `StoreRuns.FetchBootServesExactly` | internal/bundle/boot_fetch.go:31-70 | a boot serves the first acceptable bundle that any of its attempts fetches, and the cached one if none does |
| `StoreRuns.FileBootServesExactly` | internal/bundle/store.go:29-52 | a boot serves the bundle read first if acceptable, and the cached one otherwise |
| `StoreRuns.LastAcceptedIsServed` | internal/bundle/store.go:146-183 | in every life the last bundle accepted from a push or the file is the one served |
| `StoreRuns.ServesOnlyValid` | internal/bundle/store.go:66-79 | every bundle ever served has version 1, a domain, names and positive TTLs |
| `StoreRuns.RejectionsChangeNothing` | internal/bundle/store.go:125-136 | after any rejections the last accepted bundle is served and the disk is untouched |
| `Sse.Subscribe` | internal/remote/sse.go:83-125 | one call of the handler per blank-terminated block with an `event:` or `data:` line (compare section 9.2.6 of the WHATWG HTML standard) |
| `Sse.CommentsDoNotDispatch` | internal/remote/sse.go:111-113 | a comment line inserted anywhere changes no dispatch |
| `Sse.OnlyFieldsDispatch` | internal/remote/sse.go:102-119 | a line that is not blank may be put anywhere without changing a dispatch if and only if it starts with neither "event:" nor "data:" |
| `Sse.FieldThenBlank` | internal/remote/sse.go:103-116 | after any lines, such a line and a blank one dispatch once more, and another blank one does not |
| `Sse.AllHandledExactlyWhenUnbuffered` | internal/remote/sse.go:61-78 | every line read is handled before the close is seen, exactly because the channel has no buffer |
| `Backoff.ExponentialBackoff` | internal/remote/runner.go:124-141 | the loop computes the doubling delay with 64-bit wrap-around |
| `Backoff.CappedExactlyWithoutOverflow` | internal/remote/runner.go:124-141 | delay n is min(base * 2^(n-1), max) for all n if and only if no doubling of the base lands in [2^62, max) |
| `Backoff.DelayCanWrap` | internal/remote/runner.go:130-135 | with base 2^62 and cap 2^62 + 1 the second delay is -2^63 |
| `Backoff.DelaysGrowToTheCap` | internal/remote/runner.go:120-141 | with a cap of at most 2^62, delays never decrease and reach the cap by attempt 63 |
| `Backoff.ReconnectWaits` | internal/remote/runner.go:38-57 | the waits of a whole run, whose counter never resets, are those delays in order |

## Left out

- Damping.Damper.Evaluate: records are values in the map, so sharing of a record's pointer is not captured; the program never shares one.
- Evaluation.Evaluator.Resolve: concurrent calls are not modelled, because the calls are taken as serialised.
- ProbeRunner.Runner.RunOnce: all probes of a pass happen at the pass's own time; 64-bit overflow of an interval in milliseconds times a million is not modelled.
- Targets.BuildTargets: a prober is the arguments it is built with; TCP, HTTP and k8s probing themselves are outside the model.
- Reporting.HealthReporter.NotifyTransition: the timestamp of a transition is left out, since it decides nothing; interrupted calls are the steps that `NoLostWakeup` and `QueueIsConserved` speak of.
- Handler.Lookup: names carry no escapes when the trailing dot is looked for.
- HTTP, bearer tokens, URL building and JSON formatting.
- Listeners, flags, signals, the lazy start of the k8s lister, and the tickers that call the modelled steps.
- The idle timer of the event stream, beyond being one of the ways the loop ends.
- The bundle poll while the stream is down: each poll is one more push of fetched bytes to the store.
- `Bundle.ByFQDN`, `LinearBackoff`, `Damper.Frozen` and the SOA's fields other than zone and TTL.
