# Hermes Sentinel: verified model

Hermes Sentinel watches a handful of hosts. Reporters post authenticated heartbeats to a small HTTP
server; a cooperative loop resolves each host to HEALTHY, DEGRADED or DOWN and sends one incident per
change; a separate oneshot process, the dead-man, probes the server from outside and keeps a durable,
ordered queue of the notifications it still owes. This project models the parts of that system whose
correctness depends on order, history or encoding, and proves what they promise.

`dafny verify dfyconfig.toml` checks everything. One concept lives in one module:

* **The dead-man.** `DeadMan` is the debounce machine with its queue, allocator, outage binding and time
  anchor. `DeadManProtocol` runs it over one durable cell in small steps, where any save may be refused or
  crash with the old or the new content left behind, any send may fail or succeed unseen, and the process may
  die between any two steps. `DeadManGuarantees` states what holds of every such run: no intent is lost,
  delivery is in order with stable identity, messages are conserved, RECOVERED is sound and complete.
  `DeadManDrain` gives the exact number of cycles a backlog needs. `DeadManCanonical`, `DeadManCodec`,
  `DeadManSchema`, `DeadManDocument` and `DeadManSize` are about the stored snapshot: nothing in it is redundant, it round-trips,
  exactly the documents that spell a valid status are accepted, and a computed backlog always fits. `DeadManStore` and `DeadManRuntime` are the state file and the cycle
  as the program executes them, proved to be runs of the small steps.
* **Host monitoring.** `Latch` states the hysteresis twice, as counters and as a function of the whole
  history, and proves them equal for all thresholds; `HostState` and `DeadManRuns` inherit it. `HealthEngine`
  projects interleaved, failing runs to clean single-host runs; `Monitoring` sends each transition once, in host order.
* **Encodings.** `Timestamps` (over `Calendar` and `Text`) shows that the stored text sorts as time does, and
  `Repository` draws the consequence for the latest heartbeat. `ContentLength` shows that comparing digits as text is comparing
  numbers. `Representation` shows that the candidate bytes determine the candidate, `Staging` that staging changes nothing.
* **The loop.** `Scheduler` is the completion-anchored schedule, with the machine's rounded sums and differences as a parameter.
* **Ingestion.** `Credentials`, `ContentType`, `Ingestion`, `Wire`, `HttpApi` and `HttpServer` follow one
  request from the socket to the table; `HeartbeatRuns` states acceptance as one condition, whole request sequences as one invariant, and
  what the dead-man's probe sees of a live server; `HeartbeatAnswers` gives every status its condition and every condition its
  meaning in characters, members and instants.

Instants are integer microseconds, except where the text of a date is the point. Byte strings are strings of octets. Exceptions are
`Result` values. Clocks, file system faults, message transports, TCP probes, the JSON text parser and the telemetry field decoder are parameters that may
answer anything. Of the library's ISO 8601 reader nothing is assumed but that it reads back canonical text, and of the machine's
arithmetic nothing but what every binary floating-point format with gradual underflow gives.

## Where the code and its description part

* `decode_deadman_status` accepts aware instants that fall outside the years 1 to 9999 once converted to UTC; encoding
  such a status fails. `DeadManDocument.AcceptedIsValid` gives the exact condition, `AcceptedButNotEncodable` an example.
* The loop's request waits are described as non-negative; they are in fact strictly positive, because a deadline is strictly later than
  the completion it follows and different floating-point numbers have a non-zero difference (`Scheduler.RunsAreGuaranteed`). The
  bound by the remaining time is on the computed difference, which rounding may put above the real one.
* A host transition whose send fails is not attempted again, since the engine's memory was committed before the send. The
  attempts are therefore exactly the emitted transitions, once each (`Monitoring.AttemptedExactlyOnce`); the dead-man's
  intents, in contrast, are delivered at least once.
* That the candidate bytes identify the candidate is proved for bases and object formats without NUL, which is all that git ever
  answers; the builder itself does not check this, and with a NUL two candidates can share their bytes (`Representation.NulInBaseIsAmbiguous`).
* The request checks' own 413 for an oversized body can never be reached through the server, whose declared-length limit is the same number
  (`HeartbeatRuns.EarlyStatuses`).

## Model

| member | source | states |
|---|---|---|
| `DeadMan.CheckStatus` | src/hermes_sentinel/deadman.py:581-802 | The constructor's sequence of checks (streaks, strictly rising ids, tail and head anchored at the allocator, queue grammar, ledger time, outage binding) accepts exactly the valid statuses |
| `DeadMan.NoHoles` | src/hermes_sentinel/deadman.py:621-671 | Strictly increasing ids whose span equals their count are consecutive, so checking order, tail and head is enough |
| `DeadMan.AdvanceCloses` | src/hermes_sentinel/deadman.py:811-985 | A probe on a valid status is refused exactly when the clock lies before the anchor, and otherwise yields a valid status: construction never fails |
| `DeadMan.AcknowledgeCloses` | src/hermes_sentinel/deadman.py:987-1046 | Acknowledgement is accepted for the head id and for no other; it removes that intent, keeps validity and leaves liveness, anchor and allocator alone |
| `DeadMan.ProbeMoves` | src/hermes_sentinel/deadman.py:811-935 | Entering DOWN appends one DOWN bound to its fresh id, leaving DOWN appends one RECOVERED if and only if that outage's DOWN was acknowledged, and nothing else touches queue, allocator, anchor or binding |
| `DeadManRuns.ReachableIsOrderly` | src/hermes_sentinel/deadman.py:811-1046 | Over every word of probes and acknowledgements: pending intents are dated in id order, only id 1 can come from UNKNOWN, and an UP status ending in RECOVERED is anchored at that recovery |
| `DeadManRuns.LivenessDependsOnProbesAlone` | src/hermes_sentinel/deadman.py:811-935 | Under any interleaving the state is the three-failure, two-success latch of the accepted probes, UNKNOWN covers exactly the all-failed histories shorter than three, and the streaks are trailing runs |
| `DeadManRuns.AcknowledgementsDoNotMatter` | src/hermes_sentinel/deadman.py:811-1046 | Dropping every acknowledgement from a word changes neither the accepted outcomes nor the state, the streaks and the anchor they lead to, refused probes included |
| `DeadManRuns.SameProbesSameLiveness` | src/hermes_sentinel/deadman.py:1042-1046 | Words with the same probes, refused ones included, agree on state, streaks and anchor |
| `DeadManCanonical.CanonicalSnapshot` | src/hermes_sentinel/deadman.py:73-88 | Two valid statuses are equal if and only if no finite word of probes and acknowledgements distinguishes state, pending count, head intent, and acceptance |
| `Latch.FoldIsLatch` | src/hermes_sentinel/state_resolver.py:166-225 | The counting debounce computes a memory-free function of the whole history, for all thresholds of at least 1, and its counters are the trailing runs of that history |
| `Latch.LastConfirmedMeaning` | src/hermes_sentinel/state_resolver.py:166-225 | The memory-free side is what it says: the longest prefix ending in n equal signals |
| `Latch.TrailingRunMeaning` | src/hermes_sentinel/state_resolver.py:166-225 | A trailing run reaches n exactly when the last n signals are all that signal |
| `DeadManProtocol.RunKeepsLog` | src/hermes_sentinel/deadman_runtime.py:176-207 | Every run of small steps, with refused or crashing saves, failing or unconfirmed sends and crashes anywhere, keeps the ledger, the chronicle and the delivery log in agreement with the durable queue |
| `DeadManProtocol.Effects` | src/hermes_sentinel/deadman_runtime.py:184-201 | What one step does to durable and sent: the first save extends the history by exactly the newly allocated intents, a delivery sends the durable head, the second save acknowledges it, and nothing else touches either |
| `DeadManProtocol.ProbeKeepsAccounts` | src/hermes_sentinel/deadman_runtime.py:184-188 | A durable evaluation keeps ledger, chronicle and pairing in agreement with the durable status |
| `DeadManProtocol.AcknowledgementKeepsAccounts` | src/hermes_sentinel/deadman_runtime.py:194-201 | The second save acknowledges exactly the next id in order |
| `DeadManGuarantees.NothingIsLost` | src/hermes_sentinel/deadman_runtime.py:178-207 | In every run each id from 1 to the durable allocator minus 1 is pending in the durable status or has a confirmed send in the log |
| `DeadManGuarantees.DeliveredInOrder` | src/hermes_sentinel/deadman_runtime.py:189-201 | Sent ids start at 1, each repeats the last or adds one, and nothing is sent before every older intent was confirmed |
| `DeadManGuarantees.IdentityIsStable` | src/hermes_sentinel/deadman.py:415-470 | An id denotes one notification value for ever, across all moments of a run, even when an unsaved allocation is redone |
| `DeadManGuarantees.RecordsOnlyGrow` | src/hermes_sentinel/deadman_runtime.py:176-207 | History, log and acknowledgements of any prefix of a run are prefixes of the later ones |
| `DeadManGuarantees.RunConserves` | src/hermes_sentinel/deadman_runtime.py:189-201 | Conservation: every accepted message is one durable acknowledgement, one lost acknowledgement, or the one under way |
| `DeadManGuarantees.DuplicatesAreLostAcknowledgements` | src/hermes_sentinel/deadman_runtime.py:191-201 | An intent is sent at most once more than the cycles whose acknowledgement never became durable |
| `DeadManGuarantees.RecoveredIsSound` | src/hermes_sentinel/deadman.py:841-881 | Any RECOVERED ever pending or sent follows the DOWN with the preceding id, is dated no earlier, and that DOWN was confirmed before the RECOVERED's own first message |
| `DeadManGuarantees.RecoveryIsComplete` | src/hermes_sentinel/deadman.py:841-881 | A durable recovery allocates exactly one RECOVERED if and only if that outage's DOWN had been durably acknowledged |
| `DeadManDrain.CycleDrains` | src/hermes_sentinel/deadman.py:833-935 | Each good cycle with something pending lowers a potential by at least 4, exactly 4 under the worst probe, and allocates nothing but DOWN while the queue is non-empty |
| `DeadManDrain.BacklogDrains` | src/hermes_sentinel/deadman_runtime.py:189-207 | A backlog of p intents is empty at the end of one of the first ceil(5p/4) good cycles, for every sequence of probe outcomes |
| `DeadManDrain.OutagesAreApart` | src/hermes_sentinel/deadman.py:833-935 | Two confirmations of an outage are at least five cycles apart, whatever is observed in between |
| `DeadManDrain.BoundIsTight` | src/hermes_sentinel/deadman.py:123-127 | The bound cannot be lowered: for every p some backlog of p survives ceil(5p/4) - 1 good cycles |
| `DeadManCodec.RoundTrip` | src/hermes_sentinel/deadman.py:1084-1429 | Decoding the encoding of any valid, representable status returns that status |
| `DeadManDocument.AcceptedIsValid` | src/hermes_sentinel/deadman.py:1338-1429 | For any reader of ISO 8601 texts that reads back canonical ones, every accepted document yields a valid status; it can be encoded again if and only if all its instants lie in the years 1 to 9999 in UTC, and then it reads back unchanged |
| `DeadManSchema.AcceptedExactly` | src/hermes_sentinel/deadman.py:1338-1429 | A document is accepted as a status if and only if the status is valid and the document spells it: schema version 4, exactly the known members at every level, their literal texts, integers and booleans, and no name repeated |
| `DeadManSchema.WrittenSpells` | src/hermes_sentinel/deadman.py:1084-1130 | What is encoded spells the status by the same reading |
| `DeadManDocument.AcceptedButNotEncodable` | src/hermes_sentinel/deadman.py:1067-1073 | A concrete accepted document whose status cannot be encoded again: an aware anchor before year 1 in UTC |
| `DeadManDocument.DocumentIdentifies` | src/hermes_sentinel/deadman.py:1084-1098 | Encodings are equal exactly for statuses no future tells apart |
| `DeadManSize.DocumentSize` | src/hermes_sentinel/deadman_store.py:77-82 | The compact text of a status takes at most 251 + 2w + p(131 + w) characters for p pending intents and ids of w digits |
| `DeadManSize.BacklogFits` | src/hermes_sentinel/deadman_store.py:204-225 | Seven thousand pending intents with ids of up to eighteen digits always fit the size limit of the state file |
| `JsonTree.UniquePairs` | src/hermes_sentinel/deadman.py:1133-1140 | The dictionary filled member by member is refused exactly when a name repeats, and is otherwise the object's dictionary |
| `JsonTree.DuplicateFreeMeaning` | src/hermes_sentinel/deadman.py:1133-1140 | No repeated name means: wherever a path of array positions and object members leads, an object there has distinct names |
| `DeadManStore.StateStore.Load` | src/hermes_sentinel/deadman_store.py:157-202 | An absent file is the fresh start; a present one loads if and only if it can be read, is within 1 MiB and its document decodes, and then as exactly that status: a damaged ledger is never taken for a fresh one |
| `DeadManStore.StateStore.Save` | src/hermes_sentinel/deadman_store.py:204-259 | After a save the file is exactly the old or exactly the new content; success means the new one; a temporary file stays behind exactly after a death before the replacement or a failed removal |
| `DeadManStore.WrittenIsRead` | src/hermes_sentinel/deadman_store.py:157-259 | What fits and was written reads back as the status that was saved |
| `DeadManRuntime.RunDeadManCycle` | src/hermes_sentinel/deadman_runtime.py:136-207 | Over a present file that cannot be loaded the cycle fails and leaves file and messages as they were; otherwise it equals its specification for every failure of clock, save and send: final durable status, messages sent, the reported result, and why it failed |
| `DeadManRuntime.CycleIsARun` | src/hermes_sentinel/deadman_runtime.py:176-207 | One cycle against any world is a run of the small steps with the same durable status and messages, so every guarantee above holds of the program's own order of effects |
| `DeadManRuntime.LifetimeIsARun` | src/hermes_sentinel/deadman_runtime.py:157-207 | Any sequence of cycles from a fresh start is such a run |
| `DeadManRuntime.CompletedCyclesDrain` | src/hermes_sentinel/deadman_runtime.py:178-207 | The drain bound for the program itself: within ceil(5p/4) completed cycles the durable queue is empty once |
| `DeadManRuntime.BenignCyclesDrain` | src/hermes_sentinel/deadman_runtime.py:178-207 | The same from conditions on faults, clock and backlog alone: while nothing fails and the clock does not go back, fewer than 7000 pending intents are gone within ceil(5p/4) cycles |
| `DeadManRuntime.CycleKeepsEncodable` | src/hermes_sentinel/deadman.py:1067-1073 | Under clocks in the years 1 to 9999 every cycle, whatever fails, leaves a status that can be encoded |
| `DeadManRuntime.OutagesAreApart` | src/hermes_sentinel/deadman.py:833-935 | Two durable confirmations of an outage are at least five cycles apart, whatever is observed and whatever fails |
| `Probe.PostIsAllowed` | src/hermes_sentinel/deadman.py:313-329 | The collected method set contains POST exactly when some Allow value lists it as one of its comma-separated, blank-trimmed tokens |
| `Probe.ClassifyDeadManProbe` | src/hermes_sentinel/deadman.py:332-363 | Healthy exactly for status 405, a listed POST and an empty body |
| `Probe.ListsByTokens` | src/hermes_sentinel/deadman.py:313-329 | Every value is made of comma-free tokens, and it lists POST exactly when one of them is POST |
| `Probe.IsPostMeaning` | src/hermes_sentinel/deadman.py:326-329 | A token is POST exactly when it is POST in capitals with spaces and tabs around it at most |
| `HostState.ResolutionIsMemoryFree` | src/hermes_sentinel/state_resolver.py:106-225 | For any thresholds of at least 1 and any history a host is DOWN exactly when its latest confirmed loss is later than its latest confirmed recovery, else it has the base state of the last observation; the counters are trailing runs |
| `HealthEngine.HostStateMeaning` | src/hermes_sentinel/state_resolver.py:106-225 | Read off the readings themselves, after any interleaving of hosts and failures: DOWN by the latch of the host's own readings, otherwise HEALTHY if and only if the last successful reading was fresh, reachable and not breached |
| `HealthEngine.EvaluationMeaning` | src/hermes_sentinel/health_engine.py:253-319 | An evaluation carries the reading's moment and thresholds and the remembered resolution, and a transition exactly when a known host enters or leaves DOWN, from and to those states |
| `HealthEngine.Engine.EvaluateHost` | src/hermes_sentinel/health_engine.py:218-319 | One evaluation changes the memory as `EvaluationMeaning` says; a failing one leaves it as it was |
| `HealthEngine.MemoryProjects` | src/hermes_sentinel/health_engine.py:282-319 | For any interleaving of hosts and failures a host's memory is the fold of its own successful observations |
| `HealthEngine.MemoryIsIsolated` | src/hermes_sentinel/health_engine.py:282-319 | Deleting all other hosts' calls and all failures changes nothing for the host |
| `HealthEngine.EmissionsProject` | src/hermes_sentinel/health_engine.py:159-190 | The transitions a host emitted are those its successful calls emit alone |
| `HealthEngine.EmissionsAlternate` | src/hermes_sentinel/health_engine.py:159-190 | One host's emitted transitions strictly alternate between entering and leaving DOWN, and the last one tells its state |
| `HealthEngine.FirstEmission` | src/hermes_sentinel/health_engine.py:159-190 | They start with a recovery exactly when the first successful evaluation already resolved DOWN, which is silent |
| `Monitoring.IncidentFromTransition` | src/hermes_sentinel/incidents.py:99-111 | An incident exists exactly for transitions into or out of DOWN and its kind agrees with its transition |
| `Monitoring.Coordinator.NotifyTransition` | src/hermes_sentinel/notifications.py:86-105 | At most one attempt per transition, and an incident is returned only after a successful one |
| `Monitoring.MonitoringCycle.Run` | src/hermes_sentinel/monitoring.py:116-144 | The loop over engine and sender is the host-ordered pass whose results `PassReports` describes: same memory, attempts and results |
| `Monitoring.PassReports` | src/hermes_sentinel/monitoring.py:133-144 | A pass returns results if and only if every evaluation and every attempted send in it succeeded, each with its own evaluation and exactly the incident of its transition; otherwise its last call is the first turn that went wrong, and the failure is that one's |
| `Monitoring.PassIsPrefix` | src/hermes_sentinel/monitoring.py:133-144 | A pass evaluates a prefix of the hosts in configured order and stops short only by failing |
| `Monitoring.PassIsCalls` | src/hermes_sentinel/monitoring.py:133-144 | A pass is that many more engine calls and attempts exactly the incidents they emit |
| `Monitoring.AttemptedExactlyOnce` | src/hermes_sentinel/monitoring.py:116-144 | Across any number of passes that may abort, the attempts are the incidents of all emitted transitions, once each and in order |
| `Monitoring.EveryEmissionIsAnIncident` | src/hermes_sentinel/incidents.py:99-111 | Every transition the engine emits is worth an incident, so none goes unattempted |
| `Timestamps.TextOrder` | src/hermes_sentinel/persistence/repository.py:15-28 | Lexicographic order of the canonical UTC text is chronological order, with and without a fraction of a second |
| `Timestamps.InstantOrder` | src/hermes_sentinel/persistence/repository.py:80-88 | For all UTC instants text order equals time order and equal text means equal instants |
| `Timestamps.ParseInvertsText` | src/hermes_sentinel/persistence/repository.py:91-104 | Parsing inverts the text of any local time with a readable offset |
| `Timestamps.OffsetMeaning` | src/hermes_sentinel/persistence/repository.py:91-104 | An offset is read exactly from a sign, two digits of hours and two of minutes, positive to the east |
| `Timestamps.RoundTrip` | src/hermes_sentinel/persistence/repository.py:80-104 | A serialized datetime reads back as an aware datetime of the same instant; naive ones and instants outside the years 1 to 9999 are refused, and no others |
| `Calendar.MicrosOrder` | src/hermes_sentinel/persistence/repository.py:80-88 | Chronological order of microsecond instants is the order of the calendar fields, leap years included |
| `Calendar.MonthStarts` | src/hermes_sentinel/persistence/repository.py:80-88 | The first of each month is where the Gregorian calendar puts it, and each month has its length, leap years included |
| `Calendar.FromMicrosInverts` | src/hermes_sentinel/persistence/repository.py:80-88 | Civil times and instants of the years 1 to 9999 correspond one to one |
| `Repository.RowReadsBack` | src/hermes_sentinel/persistence/repository.py:279-337 | A stored row reads back as the inserted record in UTC |
| `Repository.InUtcMeaning` | src/hermes_sentinel/persistence/repository.py:80-104 | Reading back changes the offset of the two moments to UTC and nothing else |
| `Repository.LatestRowIsLatest` | src/hermes_sentinel/persistence/repository.py:169-180 | Choosing by text then id finds the node's latest record by instant, the later insertion winning a tie |
| `Repository.HeartbeatRepository.InsertHeartbeat` | src/hermes_sentinel/persistence/repository.py:216-245 | Appends exactly the given record or refuses before writing; refused exactly for a blank node, an unrepresentable or naive time, or a failing transaction |
| `Repository.HeartbeatRepository.LatestHeartbeat` | src/hermes_sentinel/persistence/repository.py:247-257 | After any insertions the result is the node's argmax by receive instant and insertion order |
| `ContentLength.TextualComparisonIsNumeric` | src/hermes_sentinel/http_server.py:167-200 | For digit strings of any length and any bound, the zero-stripped, length-first, lexicographic comparison refuses exactly the values above the bound, and what is left to convert is no longer than the bound |
| `ContentLength.DeclaredLengthIsExact` | src/hermes_sentinel/http_server.py:203-242 | Over any set of header values: absent, one exact value within the bound, 413 exactly above it, and 400 for everything else |
| `ContentLength.DeclarationMeaning` | src/hermes_sentinel/http_server.py:231-234 | The trimmed text is a number exactly when the value is its digits with spaces and tabs around them at most |
| `Representation.BuildRepresentation` | tools/candidate_fingerprint.py:416-446 | The builder's chunk loop yields the header and one chunk per sorted path, or nothing when a field is too long |
| `Representation.ReadInvertsBuild` | tools/candidate_fingerprint.py:411-446 | A parser recovers base, object format and the items from the bytes |
| `Representation.RepresentationIdentifies` | tools/candidate_fingerprint.py:416-446 | Two representations are equal if and only if base, object format, present entries and deletions are, in whatever order they were listed |
| `Representation.NulInBaseIsAmbiguous` | tools/candidate_fingerprint.py:428-437 | The condition is needed: with a NUL in the base two different candidates share their bytes |
| `Representation.SortedIsUnique` | tools/candidate_fingerprint.py:438-438 | The sorted path list is determined by the set of paths |
| `Staging.EntryMeaning` | tools/candidate_fingerprint.py:354-408 | By kind of path and index mode: which paths are ambiguous, which are gone, and the mode and id of every other one: a link its target's id, a clean file executable if and only if the trusted x-bit or the index says so, a gitlink its own head or the indexed id |
| `Staging.EffectiveMeaning` | tools/candidate_fingerprint.py:340-408 | Effective entries exist exactly when no indexed or untracked path is ambiguous, and hold exactly the paths that are not gone, each with that identity |
| `Staging.Classify` | tools/candidate_fingerprint.py:340-396 | The first pass settles links, gitlinks and deletions and collects exactly the regular files that need cleaning, or fails on an ambiguous path |
| `Staging.CleanRegular` | tools/candidate_fingerprint.py:397-408 | The second pass adds one clean entry per collected file and changes no other, refusing external filters first |
| `Staging.EffectiveEntries` | tools/candidate_fingerprint.py:340-408 | Both passes together compute the per-path effective entries and fail exactly when some path is ambiguous |
| `Staging.StagedEntryStays` | tools/candidate_fingerprint.py:340-408 | A path's effective entry, once in the index, is its effective entry again |
| `Staging.StagingChangesNothing` | tools/candidate_fingerprint.py:11-15 | Staging any subset of paths leaves the effective entries unchanged |
| `Staging.StagingKeepsBytes` | tools/candidate_fingerprint.py:457-460 | and hence the representation of the diff against the base tree, byte for byte |
| `Scheduler.DeadlineIsLater` | src/hermes_sentinel/runtime.py:132-146 | Even when the sum collapses onto the completion the deadline is strictly later; the ordinary sum is kept whenever it is later itself |
| `Scheduler.DeadlineAfter` | src/hermes_sentinel/runtime.py:132-146 | The deadline is strictly later than the completion, not before the rounded sum, and the later of that sum and the next representable number |
| `Scheduler.SentinelRuntime.RunForever` | src/hermes_sentinel/runtime.py:222-287 | The loop equals its specification over any script of clock readings, failures and stop requests: same waits, same timeouts, same monitoring runs; it returns normally exactly when no iteration it reached was ended by a failing cycle or request |
| `Scheduler.RunsAreGuaranteed` | src/hermes_sentinel/runtime.py:263-287 | Under a clock that never goes back no request wait begins with a cycle due, every wait is exactly the lesser of poll interval and computed time to due and positive, and cycles never start before the deadline set before them |
| `Scheduler.OneRequestPerIteration` | src/hermes_sentinel/runtime.py:263-287 | Each iteration completes one cycle exactly when one is due and does not fail, none otherwise, and waits for exactly one request unless it stopped before; the loop ends exactly on a stop, a failing cycle or a failing request |
| `Scheduler.WaitsCountIterations` | src/hermes_sentinel/runtime.py:263-287 | As long as the loop goes on, the waits count its iterations |
| `Scheduler.RunsAreSpread` | src/hermes_sentinel/runtime.py:270-280 | In any arithmetic k completed cycles span at least k - 1 intervals, less exactly what rounding took from those intervals |
| `Scheduler.LossIsBounded` | src/hermes_sentinel/runtime.py:132-146 | What rounding takes from a run of intervals is at most the sum of what the single additions lose, nothing when they are exact |
| `Credentials.MakeNodeCredentials` | src/hermes_sentinel/wire.py:157-183 | The two dictionaries filled in one pass accept exactly the sets with non-blank names and pairwise different, non-blank tokens, and otherwise name the first fault |
| `Credentials.SoundEntriesAreOwnTokens` | src/hermes_sentinel/wire.py:157-183 | Accepted exactly when no two nodes share a token |
| `ContentType.Rejection` | src/hermes_sentinel/http_api.py:299-336 | The parameter loop gives the closed-form verdict: malformed 400, unsupported 415, otherwise none |
| `ContentType.AcceptedExactly` | src/hermes_sentinel/http_api.py:299-336 | A value is accepted if and only if it is the JSON media type alone or followed by one UTF-8 charset parameter |
| `ContentType.VerdictMeaning` | src/hermes_sentinel/http_api.py:299-336 | In characters: which values are accepted, which are 400 because something cannot be read or a charset is repeated, and which are 415 because what can be read is not supported |
| `ContentType.VerdictIgnoresCase` | src/hermes_sentinel/http_api.py:299-336 | Values that differ in letter case alone get the same verdict |
| `Ingestion.HeartbeatIngestor.Ingest` | src/hermes_sentinel/ingestion.py:139-178 | Stores exactly the given telemetry stamped by the central clock, or nothing |
| `Wire.AuthenticatedHeartbeatAdapter.Handle` | src/hermes_sentinel/wire.py:491-540 | Stores only the telemetry of an authenticated payload, and otherwise nothing |
| `HttpApi.HeartbeatHttpAdapter.Handle` | src/hermes_sentinel/http_api.py:422-471 | Client failures are answered, internal ones are left to the server, and a row is stored exactly with a 204 |
| `HttpServer.HeartbeatRequestHandler.ResolveBody` | src/hermes_sentinel/http_server.py:410-484 | Exactly the declared bytes leave the stream, none when framing is refused, and a short body is never handed on |
| `HttpServer.HeartbeatRequestHandler.Emit` | src/hermes_sentinel/http_server.py:488-519 | One response is written, its length and the closing declared |
| `HttpServer.HeartbeatRequestHandler.Dispatch` | src/hermes_sentinel/http_server.py:365-408 | One response on every path, an internal failure answered 500, and the table grows by the decided row alone |
| `HttpServer.ResponsesHaveNoBody` | src/hermes_sentinel/http_server.py:488-526 | Every response declares an empty body once, closes the connection, and carries Allow exactly for 405 |
| `HeartbeatRuns.AcceptedExactly` | src/hermes_sentinel/http_api.py:432-471 | 204 is answered and a row stored if and only if framing, headers, token, payload, clock and storage are all in order; the row is what the declared bytes and the central clock say |
| `HeartbeatRuns.EarlyStatuses` | src/hermes_sentinel/http_server.py:444-484 | 417, 411, 413, 404 and 405 each occur exactly under their own condition; 413 depends on the declared number alone |
| `HeartbeatAnswers.StatusTable` | src/hermes_sentinel/http_api.py:432-471 | The rest of the table: 415 for a missing or unsupported content type, 401 for a missing or repeated token or one that is not the claimed node's own, 500 exactly when an authenticated observation cannot be stored, and 400 for everything else |
| `HeartbeatAnswers.HeadersMeaning` | src/hermes_sentinel/http_api.py:342-393 | Headers are well formed exactly with non-empty names of visible ASCII and values without control characters but the tab |
| `HeartbeatAnswers.HeaderValuesMeaning` | src/hermes_sentinel/http_api.py:276-288 | A header's values are those under its name in any letter case, in order |
| `HeartbeatAnswers.DeclaredLengthMeaning` | src/hermes_sentinel/http_server.py:225-242 | A length is declared exactly by one header with digits, spaces and tabs around them at most |
| `HeartbeatAnswers.JsonTypedMeaning` | src/hermes_sentinel/http_api.py:299-336 | The content type is accepted exactly for one value that spells JSON, alone or with a UTF-8 charset |
| `HeartbeatAnswers.StrictJsonMeaning` | src/hermes_sentinel/http_api.py:216-268 | The payload is the dictionary of a JSON object in which no object at any depth repeats a name |
| `HeartbeatAnswers.ClaimedNodeMeaning` | src/hermes_sentinel/wire.py:430-442 | The claimed node is the text of the member node, if it is not blank |
| `HeartbeatAnswers.AcceptsMeaning` | src/hermes_sentinel/ingestion.py:139-178 | An observation is stored exactly for a configured, named node, two aware moments within the years 1 to 9999 in UTC, and a table that takes the row |
| `HeartbeatRuns.FrameMeaning` | src/hermes_sentinel/http_server.py:444-478 | The framing decision with the declared length read as a number |
| `HeartbeatRuns.BodyIsAsDeclared` | src/hermes_sentinel/http_server.py:478-484 | No body shorter or longer than declared reaches the checks, and none for other requests |
| `HeartbeatRuns.FailuresAreUniform` | src/hermes_sentinel/wire.py:491-530 | Any two configurations that do not authenticate a request treat it alike: no node or token is revealed |
| `HeartbeatRuns.LiveServerProbesHealthy` | src/hermes_sentinel/deadman.py:332-363 | Of all responses the heartbeat server can give, the dead-man's probe takes for healthy exactly those to well-formed requests for the heartbeat path with another method, and those store nothing |
| `HeartbeatRuns.OneRowPerAcceptance` | src/hermes_sentinel/http_server.py:382-408 | Over any request sequence the rows are, one for one and in order, the observations of the requests answered 204 |
| `HeartbeatRuns.RowsAreOwned` | src/hermes_sentinel/wire.py:509-530 | Every stored row's node is the unique owner of the token its request presented |
| `HeartbeatRuns.HeartbeatHttpServer.HandleRequest` | src/hermes_sentinel/http_server.py:529-538 | At every moment the table holds exactly what the requests served so far stored |

## Left out

- JSON text: the snapshot and the payload are modelled as trees with ordered members, so escapes, number spelling and malformed text are outside; only the compact text of the snapshot is printed, for its size.
- `Timestamps.ParseInvertsText`: the stored heartbeat times are read in the one spelling `isoformat` produces, which is all the table ever holds; `fromisoformat` accepts more.
- Host names, tokens and JSON text are not decoded from UTF-8, and lower-casing is ASCII, which decides every comparison the code makes.
- Telemetry fields: the strict decoding of the numeric fields and of `reported_at` is a parameter; the identity check after it is modelled.
- Wrong Python types as arguments, subclasses and hostile mappings: every value has its declared type.
- `Calendar.DateOf`: counts days up from the first one instead of following the library's date arithmetic, which is not part of the repository.
- `Scheduler.SentinelRuntime.RunForever`: runs over a finite script of what the collaborators do, because a loop without end has no final state; every prefix is covered.
- `DeadManStore.StateStore.Save`: power loss after the replacement is not modelled, because the directory synchronization is best effort in the code.
- `Repository.HeartbeatRepository.InsertHeartbeat`: the SQL text, the schema and SQLite's own failures below one atomic insert are not modelled.
- `Scheduler.DeadlineAfter`: numbers are finite; a sum that overflows to infinity is not modelled.
- `Staging.StagingChangesNothing`: staging is the writing of a path's effective entry, which differs from `git add` for symbolic links the index defines and for execute bits it already holds.
- `HttpServer.HeartbeatRequestHandler.Dispatch`: the request line and header grammar belong to the standard library; its hook for `Expect: 100-continue` gives the same 417 as the framing path and is not a separate step.
- Constant-time comparison, redacted representations, log silence and exception chaining.
- Real transports: the HTTPS probe, Telegram, the TCP probe and sockets.
- Heartbeat freshness and resource thresholds, settings loaders and validators, schema bootstrap, application wiring, signals and exit codes: single comparisons or branch-by-branch code.
- Git subprocesses, clean filters and SHA-256 in the fingerprint tool: their answers are parameters, and identity is stated on the bytes before hashing.
- The reporter and the deployment scripts.
