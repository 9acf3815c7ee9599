# Verified model of the detection and delivery core

A Dafny 4.11 model of the stateful parts of a log pipeline for a web application
firewall, with proofs of what these parts keep over whole runs. `dafny verify
dfyconfig.toml` checks the project.

| file | what it models |
|---|---|
| `recency.dfy`, `lru.dfy`, `windows.dfy`, `window_table.dfy`, `cooldown.dfy` | what both detectors share: the access-ordered table of windows with eviction and sweep, one sliding window with its buckets and aggregates, the alert cooldown |
| `request_detector.dfy`, `ddos_detector.dfy` | the per-client and the per-domain detector |
| `delivery.dfy`, `delivery_runs.dfy`, `clean_run.dfy` | commit after acknowledgement as a step machine: a partitioned log, a process that may crash at any point, a producer queue whose deliveries are confirmed, rejected or lost in any order, committed offsets |
| `event_bus.dfy`, `kafka_pipeline.dfy` | one batch of the Python bus and of the Java pipeline, as runs of that machine |
| `record_processor.dfy`, `effectively_once.dfy` | outputs with ids derived from their input, and the first-insert-wins attack table |
| `rules.dfy`, `rule_protocol.dfy`, `rule_compaction.dfy`, `rule_service.dfy`, `rule_matching.dfy`, `rule_engine.dfy` | rule validation and the rule document; the protocol from the store over the topic to the engines; its compaction; the store and API; matching and the order of headers; the engine and subscriber |
| `html_entities.dfy`, `normalizer.dfy` | the request normaliser |
| `log_format.dfy`, `log_line.dfy`, `log_block.dfy` | the `waf_combined` line format, one line, a block of lines |
| `tailer.dfy` | the polling file tailer |
| `traffic.dfy`, `recent_times.dfy`, `rate_counter.dfy`, `stage_counter.dfy` | the bounded in-memory summaries |
| `options.dfy`, `collections.dfy`, `lexicographic.dfy` | general lemmas |

Objects that the source updates in place are classes. Their methods are proved against
functions of the whole history (for a window: the recount of all events since it was
created), and the history's own properties are lemmas about those functions. Ghost fields
such as `history`, `calls`, `run` or `steps` record that history and have no influence on
what is computed.

Where the environment decides (a delivery is confirmed, a write fails, a process crashes, the
queue is full), the model chooses freely, so the theorems hold for every choice. Ghost
counters such as `unsent`, `unconfirmed` or `commitFailures` record its refusals, and each
failure of a method is tied to one of them, so that no method can fail by itself. Clock
readings, the future-skew reference, library calls (regular expressions, UTF-8 decoding,
number and time parsing, URL unquoting) and the pattern of static assets are parameters.

Seven places where the code does not do what one might expect are stated with their exact
condition, and with an input on which it fails:

- `EffectivelyOnce.AlwaysSameRowsExactly`: headers are visited in an order that may change when
  the process restarts, so that a replayed attack can have the same id but another field and
  matched text, and the table keeps whichever came first (`OrderMatters`, `DifferentRows`).
- `LogBlock.ParseRaw`: one line with an enormous `rt_us` raises an exception that is not a
  ValueError and loses its whole block (`OneLineSpoilsTheBlock`).
- `Tailer.UndetectedReplacement`: a file replaced under the same inode by one that is not
  shorter than what was read, or swapped between stat and open, is taken for the same file;
  lines of both can then be joined (`JoinedAcrossFiles`).
- `StageCounter.CountsExactly`: a redelivery after 10,000 further new ids is counted again
  (`CountedAgain`).
- `RuleCompaction.RunSafeExactly`: an unreadable or invalid last record under the key of the rule
  snapshots can hide every snapshot before it from an engine that starts later
  (`HiddenSnapshot`).
- `RecentTimes.AlwaysExactly`: after a clock was set back, the rate counter can count an expired
  time or miss one of the window (`ExpiredIsCounted`, `LiveIsMissing`).
- `RecordProcessing.AlertIdCollision`: a request alert for an event id that begins with
  `ddos:` can share its id with an alert of the DDoS detector (`CollidingAlerts`).

## Model

| member | source | states |
|---|---|---|
| `LruTable.Capacity` | services/detector/src/main/java/com/example/waf/detector/service/impl/RequestDetectionServiceImpl.java:62-67 | After any run of calls at most `max` keys are present, keys and timestamps agree, and the key just analysed is present: it survives the eviction and the sweep |
| `LruTable.OrderedByRecency` | services/detector/src/main/java/com/example/waf/detector/service/impl/RequestDetectionServiceImpl.java:62-67 | In every reachable table the keys are ordered by their last call, and each stored timestamp is that of the key's last call |
| `LruTable.WhyRemoved` | services/detector/src/main/java/com/example/waf/detector/service/impl/RequestDetectionServiceImpl.java:78-91 | A key disappears only as the least recently analysed key of a full table when a new key arrives, or in a 1000th-call sweep after being idle for longer than the grace period |
| `LruTable.RemovedExactly` | services/detector/src/main/java/com/example/waf/detector/service/impl/RequestDetectionServiceImpl.java:62-91 | A present key disappears if and only if another key is analysed and it is the least recently analysed of a full table that this key is new to, or it has been idle for longer than the grace period at a 1000th call |
| `LruTable.AliveSinceBirth` | services/detector/src/main/java/com/example/waf/detector/service/impl/RequestDetectionServiceImpl.java:78 | A present key was created by one of its own calls, was absent before that call and present ever since |
| `LruTable.TraceIsProjection` | services/detector/src/main/java/com/example/waf/detector/service/impl/RequestDetectionServiceImpl.java:78-91 | The events recorded for a surviving key are exactly its own events since its entry was created, whatever the other keys did |
| `LruTable.NonInterference` | services/detector/src/main/java/com/example/waf/detector/service/impl/RequestDetectionServiceImpl.java:78-91 | Running a surviving key's calls alone gives the same entry as any interleaving with other keys, evictions and sweeps |
| `LruTable.Admission` | services/detector/src/main/java/com/example/waf/detector/service/impl/RequestDetectionServiceImpl.java:78 | What one call finds and leaves: the key is present afterwards with one event more, and a new key never evicts itself |
| `Recency.RefreshedByRecency` | services/detector/src/main/java/com/example/waf/detector/service/impl/RequestDetectionServiceImpl.java:62-67 | A use moves its key to the end of the order, and the keys are again ordered by their last use |
| `Recency.RefreshedFacts` | services/detector/src/main/java/com/example/waf/detector/service/impl/RequestDetectionServiceImpl.java:62-67 | The order after a use holds the same keys once each, with the used key last |
| `Windows.Window.constructor` | services/detector/src/main/java/com/example/waf/detector/service/impl/RequestDetectionServiceImpl.java:39-47 | A new window has seen nothing, and is consistent with an empty history for every width |
| `Windows.Window.MoveTo` | services/detector/src/main/java/com/example/waf/detector/service/impl/RequestDetectionServiceImpl.java:80-82 | The newest event time moves to the maximum, and the buckets and aggregates become the recount of the events after the new cutoff |
| `Windows.Window.Add` | services/detector/src/main/java/com/example/waf/detector/service/impl/RequestDetectionServiceImpl.java:136-147 | Recording an event inside the window keeps requests, errors, the path multiset and every bucket equal to the recount of the history with that event |
| `Windows.Window.Expire` | services/detector/src/main/java/com/example/waf/detector/service/impl/RequestDetectionServiceImpl.java:149-159 | Removing the buckets at or before the cutoff leaves the aggregates equal to the recount of the events after it |
| `Windows.Window.PopFirst` | services/detector/src/main/java/com/example/waf/detector/service/impl/RequestDetectionServiceImpl.java:150-157 | One round of the loop is exact: the subtracted counts are those of the oldest live time, and the aggregates are then the recount of the later events |
| `Windows.Window.Ignore` | services/detector/src/main/java/com/example/waf/detector/service/impl/RequestDetectionServiceImpl.java:85-86 | A late event changes no recount, so an unchanged window is still exact after it |
| `Windows.Subtract` | services/detector/src/main/java/com/example/waf/detector/service/impl/RequestDetectionServiceImpl.java:154-157 | Pointwise what is left: a path disappears exactly when no more occurrences remain than are removed |
| `Windows.HoldsPopped` | services/detector/src/main/java/com/example/waf/detector/service/impl/RequestDetectionServiceImpl.java:149-159 | Subtracting a bucket that holds the recount of (c, t] from aggregates that hold that of (c, latest] gives that of (t, latest]; so no counter goes negative, and a path leaves with its last live occurrence |
| `Windows.CountsDistinct` | services/detector/src/main/java/com/example/waf/detector/service/impl/RequestDetectionServiceImpl.java:113-116 | The number of keys of the path map is the number of distinct live paths |
| `Windows.LatestBounds` | services/detector/src/main/java/com/example/waf/detector/service/impl/RequestDetectionServiceImpl.java:80 | The newest event time is an upper bound that some event attains, or the initial minimum |
| `Windows.RecountSplit` | services/detector/src/main/java/com/example/waf/detector/service/impl/RequestDetectionServiceImpl.java:149-159 | Recounts over adjacent intervals add up |
| `Windows.RecountPermutation` | services/detector/src/main/java/com/example/waf/detector/service/impl/RequestDetectionServiceImpl.java:80-86 | A recount does not depend on the order of arrival |
| `Windows.RecountIsSize` | services/detector/src/main/java/com/example/waf/detector/service/impl/RequestDetectionServiceImpl.java:136-159 | A recount is the number of indices of the history whose sample lies in the interval and is of the kind counted |
| `Windows.WholeSecondsExactly` | services/detector/src/main/java/com/example/waf/detector/model/Event.java:53-55 | Division by 1000 rounds towards zero, also for times before 1970 |
| `Windows.BucketBound` | services/detector/src/main/java/com/example/waf/detector/service/impl/RequestDetectionServiceImpl.java:81-85 | However many events arrive, every live bucket is non-empty, its key lies in (latest - W, latest], and there are at most W of them |
| `Windows.OrderIndependence` | services/detector/src/main/java/com/example/waf/detector/service/impl/RequestDetectionServiceImpl.java:80-86 | Two windows that received the same events in different orders end with the same buckets, requests, errors and path multiset |
| `WindowTables.WindowTable.WindowFor` | services/detector/src/main/java/com/example/waf/detector/service/impl/RequestDetectionServiceImpl.java:62-67 | The access-ordered map does one step of the specification table: finds or creates the window, refreshes the order, evicts the eldest on overflow; all other windows stay the same objects |
| `WindowTables.WindowTable.Insert` | services/detector/src/main/java/com/example/waf/detector/service/impl/RequestDetectionServiceImpl.java:62-67 | A new key is appended and the eldest key removed exactly when the map is over its limit |
| `WindowTables.WindowTable.Sweep` | services/detector/src/main/java/com/example/waf/detector/service/impl/RequestDetectionServiceImpl.java:88-91 | Every 1000th call removes exactly the windows not processed since the grace period, and no other |
| `Cooldown.LastAlertIsNewest` | services/detector/src/main/java/com/example/waf/detector/service/impl/RequestDetectionServiceImpl.java:119-123 | The remembered alert second is that of some alert of the run, and no alert was at a later one |
| `Cooldown.AlertGap` | services/detector/src/main/java/com/example/waf/detector/service/impl/RequestDetectionServiceImpl.java:119-123 | For any event order, any two alerts are at least one cooldown apart, in order of processing |
| `Cooldown.SuppressedExactly` | services/detector/src/main/java/com/example/waf/detector/service/impl/RequestDetectionServiceImpl.java:119-123 | A qualifying event stays silent if and only if an earlier-processed alert lies less than one cooldown before it, or after it |
| `Cooldown.AlertSpan` | services/detector/src/main/java/com/example/waf/detector/service/impl/RequestDetectionServiceImpl.java:119-123 | k alerts span at least k - 1 cooldowns |
| `Cooldown.AlertIsFiring` | services/detector/src/main/java/com/example/waf/detector/service/impl/RequestDetectionServiceImpl.java:119-123 | The alert of the i-th event of any history is the verdict on its attempt, whatever makes an attempt of an event and its past |
| `Cooldown.HistorySuppressed` | services/detector/src/main/java/com/example/waf/detector/service/impl/RequestDetectionServiceImpl.java:119-123 | The exact condition for silence, for the histories of both detectors |
| `Cooldown.HistorySpan` | services/detector/src/main/java/com/example/waf/detector/service/impl/RequestDetectionServiceImpl.java:119-123 | k alerts of a history span at least k - 1 cooldowns, for both detectors |
| `RequestDetector.Detector.constructor` | services/detector/src/main/java/com/example/waf/detector/service/impl/RequestDetectionServiceImpl.java:56-68 | An empty detector satisfies the invariant |
| `RequestDetector.Detector.Analyze` | services/detector/src/main/java/com/example/waf/detector/service/impl/RequestDetectionServiceImpl.java:71-134 | Rejects exactly the events beyond the allowed skew, without any change; otherwise returns the outcome recounted from the whole history of the event's own client, and all windows keep agreeing with their histories |
| `RequestDetector.Detector.Process` | services/detector/src/main/java/com/example/waf/detector/service/impl/RequestDetectionServiceImpl.java:76-134 | The same for an admitted event: expire, add, sweep, score and cooldown together refine the recount |
| `RequestDetector.Detector.Enter` | services/detector/src/main/java/com/example/waf/detector/service/impl/RequestDetectionServiceImpl.java:76-91 | Up to the sweep: the event's own window agrees with its extended history, and all other surviving windows with theirs |
| `RequestDetector.Detector.Observe` | services/detector/src/main/java/com/example/waf/detector/service/impl/RequestDetectionServiceImpl.java:79-86 | The window agrees with the history extended by the event, and the event is late exactly when its time is not after the cutoff |
| `RequestDetector.Detector.Judge` | services/detector/src/main/java/com/example/waf/detector/service/impl/RequestDetectionServiceImpl.java:93-133 | Scoring the aggregates and applying the cooldown gives the recounted outcome, and the stored alert second follows |
| `RequestDetector.Assess` | services/detector/src/main/java/com/example/waf/detector/service/impl/RequestDetectionServiceImpl.java:93-117 | Score and reasons are those of the thresholds, in the source's order, capped at 100 |
| `RequestDetector.TotalWeight` | services/detector/src/main/java/com/example/waf/detector/service/impl/RequestDetectionServiceImpl.java:94-100 | The loop computes the greatest rule weight plus the bonus per further match, and the set of types |
| `RequestDetector.Aggregates` | services/detector/src/main/java/com/example/waf/detector/service/impl/RequestDetectionServiceImpl.java:101-113 | In a consistent window requests, errors and the number of paths are the recounts over the client's history |
| `RequestDetector.OutcomeCounts` | services/detector/src/main/java/com/example/waf/detector/service/impl/RequestDetectionServiceImpl.java:80-86 | Over the events themselves, with latest the greatest event time: `requests` is the number of events later than latest - 1000 W, `errors` the number of those with a non-static path and a status of at least 400, `distinctPaths` the number of different non-static paths among them, and the late reason is given exactly for an event that is not among them |
| `RequestDetector.ScoreIs` | services/detector/src/main/java/com/example/waf/detector/service/impl/RequestDetectionServiceImpl.java:93-117 | The score in numbers: greatest rule weight, 10 for each further match, 30 and 40 for requests, 25 for errors, 25 for paths, at most 100 |
| `RequestDetector.ReasonsAre` | services/detector/src/main/java/com/example/waf/detector/service/impl/RequestDetectionServiceImpl.java:101-116 | Each reason is listed if and only if its count reaches its threshold |
| `RequestDetector.MaxWeightIs` | services/detector/src/main/java/com/example/waf/detector/service/impl/RequestDetectionServiceImpl.java:94-99 | The weight of the matches is the greatest of them, or zero without one |
| `RequestDetector.SecondIs` | services/detector/src/main/java/com/example/waf/detector/model/Event.java:53-55 | The second of an event is its milliseconds divided by 1000, towards zero |
| `RequestDetector.ForgottenExactly` | services/detector/src/main/java/com/example/waf/detector/service/impl/RequestDetectionServiceImpl.java:62-91 | A client is forgotten if and only if a new client arrives at a full table of which it is the least recently analysed, or at a 1000th event it was last processed more than two windows ago |
| `RequestDetector.SecondsAreNotSentinel` | services/detector/src/main/java/com/example/waf/detector/service/impl/RequestDetectionServiceImpl.java:120-121 | No alert second of an event time equals the value that stands for 'no alert yet' |
| `RequestDetector.ClientAlone` | services/detector/src/main/java/com/example/waf/detector/service/impl/RequestDetectionServiceImpl.java:71-134 | In any interleaving, the outcome of a client whose window survives is that of running the client alone since its window was created |
| `RequestDetector.ArrivalOrder` | services/detector/src/main/java/com/example/waf/detector/service/impl/RequestDetectionServiceImpl.java:80-86 | Request count, error count and distinct paths do not depend on the order in which the same events arrived |
| `RequestDetector.AlertSpacing` | services/detector/src/main/java/com/example/waf/detector/service/impl/RequestDetectionServiceImpl.java:119-123 | Two alerts of one window are at least one cooldown apart, whatever the order of event times |
| `RequestDetector.SuppressedExactly` | services/detector/src/main/java/com/example/waf/detector/service/impl/RequestDetectionServiceImpl.java:119-123 | `suppressed` is set if and only if the score qualifies and an earlier alert is less than one cooldown before the event, or after it |
| `RequestDetector.OutcomeAlerts` | services/detector/src/main/java/com/example/waf/detector/service/impl/RequestDetectionServiceImpl.java:119-123 | The alert and suppressed flags of an outcome are the verdict of the cooldown on the client's history |
| `RequestDetector.AlertSpan` | services/detector/src/main/java/com/example/waf/detector/service/impl/RequestDetectionServiceImpl.java:119-123 | Any k alerts of one client window, one after the other, span at least k - 1 cooldowns |
| `DdosDetector.Detector.Analyze` | services/detector/src/main/java/com/example/waf/detector/service/impl/DdosDetectionServiceImpl.java:52-87 | Rejects exactly the events beyond the allowed skew; otherwise the result is the one recounted from the domain's whole history |
| `DdosDetector.Detector.Admit` | services/detector/src/main/java/com/example/waf/detector/service/impl/DdosDetectionServiceImpl.java:56-61 | The domain's window moves to the event and expires, evicting the least recent domain when needed |
| `DdosDetector.Detector.Enter` | services/detector/src/main/java/com/example/waf/detector/service/impl/DdosDetectionServiceImpl.java:56-66 | Up to the sweep: the domain's window has moved to the event, and all other surviving windows agree with their histories |
| `DdosDetector.Detector.Process` | services/detector/src/main/java/com/example/waf/detector/service/impl/DdosDetectionServiceImpl.java:56-87 | The whole of `analyze` for an admitted event refines the recount |
| `DdosDetector.Detector.Decide` | services/detector/src/main/java/com/example/waf/detector/service/impl/DdosDetectionServiceImpl.java:67-86 | Adding the event, comparing with both thresholds and the cooldown gives the recounted outcome |
| `DdosDetector.Aggregates` | services/detector/src/main/java/com/example/waf/detector/service/impl/DdosDetectionServiceImpl.java:72-73 | In a consistent window the request count and the number of IPs are the recounts over the domain's history |
| `DdosDetector.LiveCounts` | services/detector/src/main/java/com/example/waf/detector/service/impl/DdosDetectionServiceImpl.java:59-73 | Over the events themselves: the live requests are the events later than the greatest second minus W, and the live IPs the number of different client addresses among them |
| `DdosDetector.BurstIs` | services/detector/src/main/java/com/example/waf/detector/service/impl/DdosDetectionServiceImpl.java:74-86 | A result carries these two numbers, and both reach their thresholds |
| `DdosDetector.SecondIs` | services/detector/src/main/java/com/example/waf/detector/model/Event.java:53-55 | The second of an event is its milliseconds divided by 1000, towards zero |
| `DdosDetector.ForgottenExactly` | services/detector/src/main/java/com/example/waf/detector/service/impl/DdosDetectionServiceImpl.java:43-66 | A domain is forgotten if and only if a new domain arrives at a full table of which it is the least recent, or at a 1000th event it was last processed more than two windows ago |
| `DdosDetector.ResultExactly` | services/detector/src/main/java/com/example/waf/detector/service/impl/DdosDetectionServiceImpl.java:52-87 | There is a result if and only if the event is inside the window, both recounts reach their thresholds and no earlier alert is less than one cooldown before the event, or after it |
| `DdosDetector.DomainAlone` | services/detector/src/main/java/com/example/waf/detector/service/impl/DdosDetectionServiceImpl.java:43-48 | A surviving domain's result is that of running the domain alone |
| `DdosDetector.ArrivalOrder` | services/detector/src/main/java/com/example/waf/detector/service/impl/DdosDetectionServiceImpl.java:89-98 | Live requests and distinct IPs do not depend on the order of arrival |
| `DdosDetector.AlertSpacing` | services/detector/src/main/java/com/example/waf/detector/service/impl/DdosDetectionServiceImpl.java:74-77 | Two alerts for one domain window are at least one cooldown apart |
| `DdosDetector.AlertSpan` | services/detector/src/main/java/com/example/waf/detector/service/impl/DdosDetectionServiceImpl.java:74-77 | Any k alerts for one domain window, one after the other, span at least k - 1 cooldowns |
| `Delivery.CommitReachesEnd` | services/common/bus.py:66-73 | Committing the greatest handled offset plus one per partition moves each committed offset exactly to the end of what was handled, skipping none |
| `Delivery.StepKeeps` | services/common/bus.py:234-263 | Every step of the protocol (append, start, take, enqueue, finish, delivery report, commit, crash) keeps the invariant |
| `DeliveryRuns.Reachable` | services/common/bus.py:234-263 | So every reachable world satisfies it |
| `DeliveryRuns.AtLeastOnce` | services/common/bus.py:234-276 | In every run with crashes and restarts, each message below a committed offset was handled to completion and everything that handling sent is stored by the brokers; no offset is skipped |
| `DeliveryRuns.NothingInvented` | services/common/bus.py:265-276 | Every stored record was sent by handling some message of the log |
| `DeliveryRuns.FailureBlocksCommit` | services/common/bus.py:172-184 | After one failed delivery nothing is committed in any partition until the process restarts |
| `DeliveryRuns.Monotone` | services/common/bus.py:261-262 | Committed offsets never go back, and nothing settled or stored is lost |
| `CleanRuns.CleanRun` | services/common/bus.py:234-276 | Every sequence of arrivals can be consumed without a failure, each message with any admissible outputs: everything is then committed, and only these outputs are stored |
| `EventBuses.NextOffsetsOf` | services/common/bus.py:66-73 | The method computes the specification's next offsets |
| `EventBuses.EventBus.Do` | services/common/bus.py:234-276 | Each change of the bus is one enabled step of the protocol |
| `EventBuses.EventBus.Offer` | services/common/bus.py:161-163 | The local queue takes a record, or refuses it, which is noted |
| `EventBuses.EventBus.Produce` | services/common/bus.py:156-170 | A record is queued, after one flush when the local queue is full; it is refused only when the queue was full twice, and nothing of it is queued then |
| `EventBuses.EventBus.SendOutputs` | services/common/bus.py:265-272 | A handler's outputs are queued in order up to the first one refused, which raises in the handler; without a refusal the handler ends as it would have by itself |
| `EventBuses.ErrorHeaderIs` | services/common/bus.py:192-199 | A dead letter carries the first 500 characters of the error |
| `EventBuses.EventBus.Handle` | services/common/bus.py:265-276 | An exception escapes if and only if the handler raised a delivery error, or the dead letter was refused twice; any other fault without a refusal ends with the handler's outputs followed by a dead letter of the message, its topic, the error and the group |
| `EventBuses.EventBus.HandleAvailable` | services/common/bus.py:243-260 | The loop handles polled messages in order and lists exactly those handled to completion; a fatal consumer error escapes exactly when the last poll gave one, a non-fatal one never ends the loop, and it stops only at the limit, at an empty poll or at the deadline |
| `EventBuses.EventBus.ConsumeBatch` | services/common/bus.py:234-263 | On success every polled message was handled in order and the committed offsets equal the consumer's positions; a batch fails only for a fatal error, a dead letter refused twice, a delivery error of a handler, a failed or missing confirmation, or a failed commit, and before the commit every failure leaves all committed offsets as they were |
| `EventBuses.EventBus.CommitOffsets` | services/common/bus.py:261-262 | The offsets of the handled messages are committed, or the failure is noted, before or after the broker stored them |
| `KafkaPipelines.PutIsMaximum` | services/detector/src/main/java/com/example/waf/detector/kafka/KafkaPipeline.java:116-130 | Overwriting the offset of a partition is taking the maximum, as a partition's records arrive in order |
| `KafkaPipelines.KafkaPipeline.SendAll` | services/detector/src/main/java/com/example/waf/detector/kafka/KafkaPipeline.java:123-124 | Every output of a record is sent in order; the batch ends here if and only if the producer refused one |
| `KafkaPipelines.KafkaPipeline.Process` | services/detector/src/main/java/com/example/waf/detector/kafka/RecordProcessor.java:74-82 | The outputs of a record are those specified for its verdict and the role |
| `KafkaPipelines.KafkaPipeline.HandleAll` | services/detector/src/main/java/com/example/waf/detector/kafka/KafkaPipeline.java:122-127 | Every record of the batch is processed in order and finished with the outputs of processing it, and the noted offsets are the next ones |
| `KafkaPipelines.KafkaPipeline.AwaitAll` | services/detector/src/main/java/com/example/waf/detector/kafka/KafkaPipeline.java:128-129 | Succeeds if and only if no delivery failed or took too long, and every delivery is confirmed then |
| `KafkaPipelines.KafkaPipeline.CommitSync` | services/detector/src/main/java/com/example/waf/detector/kafka/KafkaPipeline.java:130 | The noted offsets are committed, or the failure is noted, before or after the broker stored them |
| `KafkaPipelines.KafkaPipeline.RunBatch` | services/detector/src/main/java/com/example/waf/detector/kafka/KafkaPipeline.java:116-130 | On success every record was settled in turn with the outputs of processing it, and committed exactly up to the end of the poll; it fails if and only if a send, a confirmation or the commit failed, and a failure before the commit leaves every committed offset as it was |
| `RecordProcessing.AttackIdInjective` | services/detector/src/main/java/com/example/waf/detector/kafka/EnvelopeFactory.java:45 | Attack ids before hashing are equal if and only if event id and rule id are, whatever the event id contains, because rule ids contain no separator |
| `RecordProcessing.AlertIdCollision` | services/detector/src/main/java/com/example/waf/detector/kafka/EnvelopeFactory.java:55-63 | A DDoS alert and a request alert share an id if and only if the second event's id is the first's with the prefix `ddos:` |
| `RecordProcessing.CollidingAlerts` | services/detector/src/main/java/com/example/waf/detector/kafka/EnvelopeFactory.java:55-63 | An instance: the DDoS alert of event `1` and the request alert of event `ddos:1` |
| `RecordProcessing.KindsDisjoint` | services/detector/src/main/java/com/example/waf/detector/kafka/EnvelopeFactory.java:109-122 | Ids of different kinds of output never coincide |
| `RecordProcessing.DeadLetterExactly` | services/detector/src/main/java/com/example/waf/detector/kafka/RecordProcessor.java:63-83 | Processing is total: there is a dead letter if and only if parsing, the key, the scope answer or, for a record in scope of a detecting role, the detection fails; it is then the only output and carries the record's key and value, a missing value as the empty text |
| `RecordProcessing.DeadLetterError` | services/detector/src/main/java/com/example/waf/detector/kafka/RecordProcessor.java:63-83 | The dead letter carries the message of the first step that failed, 500 characters at most; a record out of scope gives nothing |
| `RecordProcessing.AdmittedOutputs` | services/detector/src/main/java/com/example/waf/detector/kafka/RecordProcessor.java:74-103 | For an admitted record: repartitioning forwards exactly its value; the DDoS role sends one alert with its own id if there is a result, and nothing otherwise; detection sends one attack per hit in order, the score if and only if there is a hit or the score is at least 40, and last the alert if and only if there is one |
| `RecordProcessing.AttackIdsDistinct` | services/detector/src/main/java/com/example/waf/detector/kafka/EnvelopeFactory.java:45 | The attack records of one event have distinct ids, in whatever order its headers are visited |
| `RecordProcessing.DetectRecords` | services/detector/src/main/java/com/example/waf/detector/kafka/RecordProcessor.java:85-96 | One attack per match in order, the score when it is worth emitting, the alert last |
| `EffectivelyOnce.AttacksAre` | services/detector/src/main/java/com/example/waf/detector/kafka/RecordProcessor.java:85-96 | The attacks sent under an order of the headers are one for each rule that hits under it, with that hit |
| `EffectivelyOnce.CommittedAttackIds` | services/detector/src/main/java/com/example/waf/detector/kafka/KafkaPipeline.java:116-130 | In every run of failures, crashes and replays the attack ids stored for a committed message are exactly those of the rules that match its request, which no order of headers changes |
| `EffectivelyOnce.SameIdsAsAnyRun` | services/detector/src/main/java/com/example/waf/detector/kafka/EnvelopeFactory.java:45 | Two runs over the same input with the same committed offsets, one of which may be free of failures, have stored the same attack ids for them |
| `EffectivelyOnce.TableRows` | services/p5-dashboard/repo.py:66-70 | Each row of the first-insert-wins table comes from a stored record of its id, and every stored attack has a row |
| `EffectivelyOnce.FirstInsertWins` | services/p5-dashboard/repo.py:66-70 | The row of an id is that of the first attack inserted under it |
| `EffectivelyOnce.IdDeterminesRow` | services/detector/src/main/java/com/example/waf/detector/kafka/EnvelopeFactory.java:29-46 | With unique event ids, equal attack ids mean equal rows up to the time, the field and the text matched; these two are equal as well if the request is settled |
| `EffectivelyOnce.SameTable` | services/p5-dashboard/repo.py:66-70 | Two runs with the same committed offsets leave tables that both hold every committed attack, in whatever order and however often the stored records were inserted, with rows that are the same up to the time, field and matched text, and up to the time if all requests are settled |
| `EffectivelyOnce.SameTableWhenDrained` | services/p5-dashboard/repo.py:66-70 | When everything is consumed, the two tables have the same ids, and the same rows in that sense |
| `EffectivelyOnce.AlwaysSameRowsExactly` | services/p5-dashboard/repo.py:66-70 | All runs that consume an input leave the same rows up to the time if and only if every request is settled: no rule finds its pattern in two headers without finding it before them |
| `EffectivelyOnce.DifferentRows` | services/detector/src/main/java/com/example/waf/detector/model/Event.java:16-17 | An input on which rows differ: one request with two matching headers |
| `Rules.ValidateAll` | services/detector/src/main/java/com/example/waf/detector/service/impl/RuleValidationServiceImpl.java:37-44 | Accepts a document if and only if it is non-empty, every rule is valid and all ids are distinct |
| `Rules.ValidRuleExactly` | services/detector/src/main/java/com/example/waf/detector/service/impl/RuleValidationServiceImpl.java:17-34 | A rule is valid if and only if its id has 3 to 80 characters of A-Z, 0-9 and the underscore, its group and pattern are not blank, its score is 1 to 100, it has a target, every target and normaliser is one of the known names in any letter case, and its pattern has at most 2000 characters and compiles |
| `Rules.LowerCaseExactly` | services/detector/src/main/java/com/example/waf/detector/service/impl/RuleValidationServiceImpl.java:24-29 | A text spells a name in any letter case if and only if its lower-case form is the name |
| `Rules.FindExactly` | services/detector/src/main/java/com/example/waf/detector/service/impl/RuleStoreServiceImpl.java:38-40 | Lookup finds the rule of an id if and only if there is one, and with unique ids that one |
| `Rules.SortedFacts` | services/detector/src/main/java/com/example/waf/detector/service/impl/RuleStoreServiceImpl.java:46 | The sorted list is ordered by id and a rearrangement of the rules |
| `Rules.SavedMembers` | services/detector/src/main/java/com/example/waf/detector/service/impl/RuleStoreServiceImpl.java:42-49 | After a save exactly the rules of other ids and the saved rule are present, sorted by id, with ids still unique |
| `Rules.AcceptedExactly` | services/detector/src/main/java/com/example/waf/detector/api/RuleApiServer.java:79-97 | A create is accepted iff the rule is valid and its id is free, an update iff it is valid and the ids match, a removal iff the id exists and is not the last rule |
| `Rules.RefusedExactly` | services/detector/src/main/java/com/example/waf/detector/api/RuleApiServer.java:79-97 | A request is refused as not found if and only if it removes an id that no rule has; every other refusal is a bad request |
| `Rules.OneIdChanges` | services/detector/src/main/java/com/example/waf/detector/api/RuleApiServer.java:79-97 | An accepted request changes one id and keeps every other rule; a create replaces nothing; the result is valid |
| `Rules.SavedIsValid` | services/detector/src/main/java/com/example/waf/detector/service/impl/RuleStoreServiceImpl.java:42-49 | Saving a valid rule into a valid document never fails the final validation |
| `Rules.WithoutIsValid` | services/detector/src/main/java/com/example/waf/detector/service/impl/RuleStoreServiceImpl.java:51-55 | Removing an id leaves a valid document if and only if some other rule remains |
| `Rules.CreateThenRemove` | services/detector/src/main/java/com/example/waf/detector/service/impl/RuleStoreServiceImpl.java:42-55 | Creating a rule and removing it gives back the sorted document |
| `Rules.LastSaveWins` | services/detector/src/main/java/com/example/waf/detector/service/impl/RuleStoreServiceImpl.java:42-49 | Of two saves of one id only the last counts |
| `Rules.SortedUnique` | services/detector/src/main/java/com/example/waf/detector/service/impl/RuleStoreServiceImpl.java:46 | A document sorted by unique ids is determined by its rules |
| `RuleProtocol.StepKeeps` | services/detector/src/main/java/com/example/waf/detector/api/RuleApiServer.java:112-124 | Every step (start, request, send, delivery, loss, confirmation or timeout, crash, foreign record, subscriber start, read, latch) keeps the invariant of store, queue, topic and engine |
| `RuleProtocol.AlwaysValid` | services/detector/src/main/java/com/example/waf/detector/service/impl/RuleStoreServiceImpl.java:57-62 | In every run each stored document is non-empty, valid and has unique ids, and the served document is the one on disk |
| `RuleProtocol.NeverOverwrites` | services/detector/src/main/java/com/example/waf/detector/api/RuleApiServer.java:79-97 | Successive stored documents differ by one accepted request applied to the one before, so a create keeps every rule and its id is new |
| `RuleProtocol.PublishedInOrder` | services/detector/src/main/java/com/example/waf/detector/api/RuleApiServer.java:112-124 | Snapshots appear on the topic in the order their documents were stored, each with the document of its version, in spite of timeouts, losses, late deliveries and restarts |
| `RuleProtocol.SuccessIsPublished` | services/detector/src/main/java/com/example/waf/detector/api/RuleApiServer.java:112-124 | When a publication is confirmed, the newest snapshot on the topic is the served document and nothing older is still queued |
| `RuleProtocol.ReplayIsNewest` | services/detector/src/main/java/com/example/waf/detector/kafka/RuleChangeSubscriber.java:61-69 | Replaying records leaves exactly the enabled rules of the newest valid one, or the initial rules |
| `RuleProtocol.EngineExactly` | services/detector/src/main/java/com/example/waf/detector/kafka/RuleChangeSubscriber.java:54-70 | In every run an engine holds exactly the enabled rules of the newest valid snapshot it has read, and the latch falls only after the noted end |
| `RuleProtocol.CaughtUp` | services/detector/src/main/java/com/example/waf/detector/kafka/RuleChangeSubscriber.java:54-70 | When the last publication succeeded, an engine at the end of the topic holds exactly the enabled rules of the stored document |
| `RuleCompaction.CompactionSafeExactly` | services/detector/src/main/java/com/example/waf/detector/kafka/RuleChangeSubscriber.java:19-23 | For records of any keys, and a log cleaned up to any one offset: a starting engine gets the rules of the whole topic if and only if every record that can become the newest acceptable one enables those rules, and so do the shipped rules when every acceptable record can go |
| `RuleCompaction.OneKeySafeExactly` | services/detector/src/main/java/com/example/waf/detector/kafka/RuleChangeSubscriber.java:19-23 | When only one key has acceptable records: safe if and only if the last record of that key is acceptable, or none is, or the newest one enables just the shipped rules; records of other keys do no harm |
| `RuleCompaction.RunSafeExactly` | services/detector/src/main/java/com/example/waf/detector/kafka/KafkaRuleChangePublisher.java:31-38 | In every run: compaction of the rule topic is safe if and only if the last record under the key of the snapshots is a snapshot, or there is no snapshot, or the newest one enables just the shipped rules |
| `RuleCompaction.CompactedCaughtUp` | services/detector/src/main/java/com/example/waf/detector/kafka/RuleChangeSubscriber.java:54-70 | After a successful publication, a starting engine that reads any compacted stage of the topic ends with the enabled rules of the stored document, as long as nobody else used the key since |
| `RuleCompaction.HiddenSnapshot` | services/detector/src/main/java/com/example/waf/detector/kafka/RuleChangeSubscriber.java:62-69 | A run on which it fails, for any shipped rules: a new rule is created and successfully published, an unreadable record of the same key follows, and compaction is no longer safe |
| `RuleServices.RuleStore.Replace` | services/detector/src/main/java/com/example/waf/detector/service/impl/RuleStoreServiceImpl.java:57-62 | The document becomes current only after it was validated and written; on any failure nothing changes; it fails on writing if and only if the file could not be written |
| `RuleServices.OpenStore` | services/detector/src/main/java/com/example/waf/detector/service/impl/RuleStoreServiceImpl.java:24-34 | The store opens if and only if the rules read, or without a rule file the shipped ones, are valid, and a missing file could be written |
| `RuleServices.RuleStore.Save` | services/detector/src/main/java/com/example/waf/detector/service/impl/RuleStoreServiceImpl.java:42-49 | On success the file and the current document are the saved document; the rejections are exactly those of validation, and any other failure is one of writing the file |
| `RuleServices.RuleStore.Delete` | services/detector/src/main/java/com/example/waf/detector/service/impl/RuleStoreServiceImpl.java:51-55 | On success exactly the rules of the id are gone; a missing id or an emptied document is rejected without change, and any other failure is one of writing the file |
| `RuleServices.RuleApi.Change` | services/detector/src/main/java/com/example/waf/detector/api/RuleApiServer.java:79-97 | The branches for create, update and delete accept and reject exactly as specified |
| `RuleServices.RuleApi.AwaitDelivery` | services/detector/src/main/java/com/example/waf/detector/kafka/KafkaRuleChangePublisher.java:31-38 | While the producer waits the queue is delivered or lost record by record; a confirmation means that the document was kept |
| `RuleServices.RuleApi.Publish` | services/detector/src/main/java/com/example/waf/detector/kafka/KafkaRuleChangePublisher.java:31-38 | Success means the snapshot is the newest on the topic; it fails if and only if the delivery failed or was not confirmed in time, and leaves the service open with the rule stored, or down when it was starting |
| `RuleServices.RuleApi.Run` | services/detector/src/main/java/com/example/waf/detector/api/RuleApiServer.java:53-62 | Requests are served only after the stored document was published |
| `RuleServices.RuleApi.Mutate` | services/detector/src/main/java/com/example/waf/detector/api/RuleApiServer.java:112-124 | A refused or unwritten request changes nothing; otherwise the store has exactly the requested document, and `Done` additionally means that it is the newest on the topic; `Failed` is answered if and only if the file could not be written and `NotPublished` if and only if the publication was not confirmed; all as a run of protocol steps under the lock |
| `RuleEngines.RuleEngine.ReplaceRules` | services/detector/src/main/java/com/example/waf/detector/service/impl/RuleEngineServiceImpl.java:42-51 | All rules of a valid document replace all old ones, or nothing changes |
| `RuleEngines.RuleEngine.Match` | services/detector/src/main/java/com/example/waf/detector/service/impl/RuleEngineServiceImpl.java:58-75 | The nested loops compute one hit per matching rule, in rule order |
| `RuleMatching.FirstHitExactly` | services/detector/src/main/java/com/example/waf/detector/service/impl/RuleEngineServiceImpl.java:63-73 | A rule hits if and only if some targeted field matches, and the hit is that of the first such field |
| `RuleMatching.TargetsExactly` | services/detector/src/main/java/com/example/waf/detector/service/impl/RuleEngineServiceImpl.java:115-128 | Which target names select which field, in any letter case: `url`, `query` and `body` their own, `headers` every header, `user_agent` and `referer` the one header each |
| `RuleMatching.FindsDecoded` | services/detector/src/main/java/com/example/waf/detector/service/impl/RuleEngineServiceImpl.java:107-113 | For any ASCII text s: a rule with `url_decode` or `html_decode` in any letter case finds in every double encoding of s what its pattern finds in s with entities decoded once, cut, and with comments removed if and only if `sql_canonical` is listed |
| `RuleMatching.FindsRaw` | services/detector/src/main/java/com/example/waf/detector/service/impl/RuleEngineServiceImpl.java:107-113 | A rule with neither finds what its pattern finds in the value as it is |
| `RuleMatching.MatchesExactly` | services/detector/src/main/java/com/example/waf/detector/service/impl/RuleEngineServiceImpl.java:58-124 | A rule matches a request if and only if its pattern is found in the path, query or body or in some header that one of its targets names; only query and body read `+` as a space |
| `RuleMatching.EncodedQueryHits` | services/detector/src/main/java/com/example/waf/detector/service/impl/RuleEngineServiceImpl.java:98-113 | An instance: the shipped rule for UNION SELECT hits the query `union+select 1` |
| `RuleMatching.HitsExactly` | services/detector/src/main/java/com/example/waf/detector/service/impl/RuleEngineServiceImpl.java:58-75 | The hits are exactly the first hits of the rules |
| `RuleMatching.HitsInOrder` | services/detector/src/main/java/com/example/waf/detector/service/impl/RuleEngineServiceImpl.java:58-75 | Hits come in rule order: those of a list of rules are those of its parts, one after the other |
| `RuleMatching.HitIdsUnique` | services/detector/src/main/java/com/example/waf/detector/service/impl/RuleEngineServiceImpl.java:58-75 | With unique rule ids no event has two hits of one id, and every hit belongs to a rule |
| `RuleMatching.HitUnderIs` | services/detector/src/main/java/com/example/waf/detector/service/impl/RuleEngineServiceImpl.java:98-105 | Whether a rule hits, and everything of its hit but field and text, does not depend on the order of the headers |
| `RuleMatching.SameInAnyOrderExactly` | services/detector/src/main/java/com/example/waf/detector/service/impl/RuleEngineServiceImpl.java:58-75 | For any number of headers: all their orders give a rule the same hit if and only if it hits before them or in at most one of them |
| `RuleMatching.OrdersDiffer` | services/detector/src/main/java/com/example/waf/detector/model/Event.java:16-17 | Two headers that both hit: visiting the one or the other first gives hits of different fields |
| `RuleMatching.OrderMatters` | services/detector/src/main/java/com/example/waf/detector/model/Event.java:16-17 | An instance: a request whose user agent and referer both hold the pattern of the shipped rule for UNION SELECT |
| `RuleProtocol.EnabledAre` | services/detector/src/main/java/com/example/waf/detector/service/impl/RuleEngineServiceImpl.java:44-48 | Exactly the enabled rules of a document are loaded |
| `RuleProtocol.EnabledInOrder` | services/detector/src/main/java/com/example/waf/detector/service/impl/RuleEngineServiceImpl.java:44-48 | The loaded rules keep the order of the document |
| `RuleEngines.RuleChangeSubscriber.Poll` | services/detector/src/main/java/com/example/waf/detector/kafka/RuleChangeSubscriber.java:62-70 | After any poll the engine has replayed the topic up to the consumer's position, and the latch falls exactly at the noted end |
| `HtmlEntities.PassesJoin` | services/detector/src/main/java/com/example/waf/detector/util/RequestNormalizer.java:58-64 | Two replacement passes equal one left-to-right pass over both tables when no replacement of the first can occur in a name of the second |
| `HtmlEntities.OnePass` | services/detector/src/main/java/com/example/waf/detector/util/RequestNormalizer.java:58-64 | The five sequential passes equal one simultaneous pass: nothing an earlier replacement created is decoded |
| `HtmlEntities.HtmlShortens` | services/detector/src/main/java/com/example/waf/detector/util/RequestNormalizer.java:58-64 | Decoding never lengthens, and a pass that keeps the length is the identity |
| `HtmlEntities.DecodesExactly` | services/detector/src/main/java/com/example/waf/detector/util/RequestNormalizer.java:58-64 | Each of the six names, in any letter case, is decoded to its character, and every other character stays |
| `HtmlEntities.HtmlRoundTrip` | services/detector/src/main/java/com/example/waf/detector/util/RequestNormalizer.java:58-64 | Decoding undoes escaping, and undoes it only once |
| `Normalizer.TakeRun` | services/detector/src/main/java/com/example/waf/detector/util/RequestNormalizer.java:36-42 | The inner loop collects exactly the bytes of the maximal run of triplets |
| `Normalizer.DecodePercentRuns` | services/detector/src/main/java/com/example/waf/detector/util/RequestNormalizer.java:27-49 | The loop computes the percent decoding of the whole text |
| `Normalizer.Normalize` | services/detector/src/main/java/com/example/waf/detector/util/RequestNormalizer.java:12-21 | The loop with its early exit computes two rounds and the cut, also for a missing value |
| `Normalizer.RunsAreTriplets` | services/detector/src/main/java/com/example/waf/detector/util/RequestNormalizer.java:34-42 | On ASCII, decoding maximal runs equals decoding triplet by triplet |
| `Normalizer.HexExactly` | services/detector/src/main/java/com/example/waf/detector/util/RequestNormalizer.java:51-56 | A character stands for v if and only if it is the digit of v in either letter case, and for nothing if it is no hexadecimal digit |
| `Normalizer.UnchangedExactly` | services/detector/src/main/java/com/example/waf/detector/util/RequestNormalizer.java:27-49 | Decoding leaves a text as it is if and only if it holds no percent sign with two hexadecimal digits and, where it is read as a space, no `+`; so a malformed percent sign stays |
| `Normalizer.EncodingRead` | services/detector/src/main/java/com/example/waf/detector/util/RequestNormalizer.java:27-49 | Decoding undoes every percent-encoding: any characters encoded, with digits of either letter case, a space as `+` exactly where that is read as one |
| `Normalizer.TwiceEncoded` | services/detector/src/main/java/com/example/waf/detector/util/RequestNormalizer.java:12-21 | A text encoded twice in any such way normalises to the text with entities decoded once, cut |
| `Normalizer.NormalizedLength` | services/detector/src/main/java/com/example/waf/detector/util/RequestNormalizer.java:12-21 | The result is no longer than the input and at most 16,384 characters; the cut keeps the first 16,384 characters, or all |
| `Normalizer.HtmlFixed` | services/detector/src/main/java/com/example/waf/detector/util/RequestNormalizer.java:15-17 | A fixed point of a round is a fixed point of both its halves |
| `Normalizer.PercentRoundTrip` | services/detector/src/main/java/com/example/waf/detector/util/RequestNormalizer.java:27-49 | Decoding undoes percent-encoding (section 2.1 of RFC 3986) for every choice of characters left unencoded other than `%`, `+` and `&`, and for both readings of `+` |
| `Normalizer.DoublyEncoded` | services/detector/src/main/java/com/example/waf/detector/util/RequestNormalizer.java:12-21 | For any ASCII s, normalising enc(enc(s)) gives the HTML-decoded s, cut, for both readings of `+` |
| `Normalizer.FixedPoint` | services/detector/src/main/java/com/example/waf/detector/util/RequestNormalizer.java:12-21 | If s within the cut is a fixed point of one round, then s, enc(s) and enc(enc(s)) all normalise to s |
| `Normalizer.TriplyEncoded` | services/detector/src/main/java/com/example/waf/detector/util/RequestNormalizer.java:14-19 | Exactly two layers are removed: enc(enc(enc(s))) normalises to enc(s), cut |
| `LogFormat.GroupsExactly` | services/c2-parser/parser.py:11-25 | What each group without escapes matches, by its own characters and length |
| `LogFormat.EscapedExactly` | services/c2-parser/parser.py:18-19 | A group with escapes matches exactly the repetitions of a plain character or a backslash with any character but a line break |
| `LogFormat.ScanFieldsExactly` | services/c2-parser/parser.py:11-19 | The mandatory groups are scanned from left to right, without backtracking, exactly as the expression matches them |
| `LogFormat.TailExactly` | services/c2-parser/parser.py:20-25 | The optional groups are recognised exactly as written, whichever of them are present |
| `LogFormat.ScanLineExactly` | services/c2-parser/parser.py:10-26 | The scanner returns given groups if and only if each group fits and the line is their concatenation with the literal text |
| `LogFormat.Unambiguous` | services/c2-parser/parser.py:10-26 | No line can be read in two ways |
| `LogLine.ScanRequestExactly` | services/c2-parser/parser.py:28-29 | The request expression matches exactly a method, target and protocol separated by blanks (section 3 of RFC 9112), perhaps followed by one line break |
| `LogLine.RequestLineExactly` | services/c2-parser/parser.py:28-29 | A request line is a method of visible ASCII characters, a target without white space, and `HTTP/` with digits and points |
| `LogLine.TargetExactly` | services/c2-parser/parser.py:64 | Path and query are the only pair that recombines to the target with no `?` in the path |
| `LogLine.DecimalValue` | services/c2-parser/parser.py:66-67 | Reading a printed number gives the number |
| `LogLine.ValueBound` | services/c2-parser/parser.py:66-72 | A text of n decimal digits of any script stands for a number below ten to the n |
| `LogLine.PrintedNumbers` | services/c2-parser/parser.py:66-74 | The numbers of a printed line can be read if and only if the size has at most 4,300 digits and the time, if any, is a number that fits |
| `LogLine.ParsesExactly` | services/c2-parser/parser.py:47-52 | A line parses if and only if it has the format, its numbers can be read and its time fits a float; the fields then are those of its groups |
| `LogLine.OverflowsExactly` | services/c2-parser/parser.py:69-74 | Parsing a line raises an overflow, which is no ValueError, if and only if the line has the format, its other numbers can be read and its microseconds are at least 2^1024 - 2^970 |
| `LogLine.ShortTimesFit` | services/c2-parser/parser.py:71-72 | A time of at most 242 digits never overflows |
| `LogLine.LongTimesOverflow` | services/c2-parser/parser.py:71-72 | A time of 342 nines does |
| `LogLine.PrintIsShown` | deploy/server/nginx/waf-logformat.conf:5-7 | The printed line is the line of its groups |
| `LogLine.RoundTrip` | services/c2-parser/parser.py:47-98 | Parsing the printed line gives back every printed field, with or without the extended fields, a `-` as nothing; a request that is no request line is kept whole as the target, with its query split off and without method and protocol |
| `LogLine.ApacheRoundTrip` | infra/web-apache/waf-vhost.conf:3 | A line as Apache prints it, with `-` for no bytes and the time in microseconds, gives back its fields and the time in seconds |
| `LogLine.NginxRoundTrip` | deploy/server/nginx/waf-logformat.conf:5-7 | A line as nginx prints it gives back its fields and its time as the number read from the text; without a time there is none |
| `LogLine.TrailingBreaks` | services/c2-parser/parser.py:49 | Line breaks at the end of a line make no difference |
| `LogBlock.ParseRaw` | services/c2-parser/parser.py:101-119 | The block fails with an overflow if and only if some line overflows, and with a ValueError if none overflows and nothing parsed; otherwise the entries are returned in line order, and parsed plus invalid is the number of non-blank lines |
| `LogBlock.OneLineSpoilsTheBlock` | services/c2-parser/parser.py:113-116 | Two lines, of which the first parses and the second overflows, so that the whole block fails |
| `LogBlock.BlankNeverParses` | services/c2-parser/parser.py:111-112 | A blank line never parses |
| `LogBlock.SkippingLosesNothing` | services/c2-parser/parser.py:110-116 | Skipping blank lines loses no entry |
| `LogBlock.SplitJoined` | services/c2-parser/parser.py:110 | Splitting undoes joining with any line end: a single boundary character, or a carriage return with its line feed |
| `LogBlock.BreaksExactly` | services/c2-parser/parser.py:110 | The line boundaries are the ten characters of `str.splitlines` |
| `LogBlock.LinesAreBreakFree` | services/c2-parser/parser.py:110 | No line of a split text contains a line boundary |
| `LogBlock.BlockRoundTrip` | services/c2-parser/parser.py:101-119 | A batch of printed lines, with any line end, parses to its entries in order |
| `LogBlock.PrintIsBreakFree` | deploy/server/nginx/waf-logformat.conf:5-7 | A printed line holds a line boundary only if one of its values does |
| `Tailer.ChunkIndependence` | services/c1-ingestion/tailer.py:155-161 | Splitting chunk by chunk with the carried tail equals splitting the whole |
| `Tailer.SplitLosesNothing` | services/c1-ingestion/tailer.py:155-161 | The lines and the tail determine the bytes they came from |
| `Tailer.NonEmptyExactly` | services/c1-ingestion/tailer.py:69-71 | Of the lines exactly the empty ones are left out, one by one |
| `Tailer.ScheduleIndependence` | services/c1-ingestion/tailer.py:123-161 | For every schedule of appends and polls of one generation, the emitted lines are exactly the non-empty terminated lines of the bytes [start, offset) in order, and the buffer is the unterminated rest without a newline |
| `Tailer.Progress` | services/c1-ingestion/tailer.py:130-143 | A poll of a readable file moves the offset to the end of the content, unless the size equals the offset or the content is shorter; it starts at zero for another inode or a smaller file, and otherwise where it was |
| `Tailer.ReadsToEnd` | services/c1-ingestion/tailer.py:123-161 | After any schedule whose last observation is readable, every byte there was at its stat has been read; if that was more than before, the emitted lines are the non-empty terminated lines of the whole content |
| `Tailer.NewlyTracked` | services/c1-ingestion/tailer.py:111-121 | A newly tracked file starts in that state, from its beginning or its end |
| `Tailer.DetectedReplacement` | services/c1-ingestion/tailer.py:123-143 | A detected rotation or truncation is read as a generation of its own: no line joins bytes of two |
| `Tailer.ReplacementRead` | services/c1-ingestion/tailer.py:130-143 | A detected replacement that is readable and not empty is read whole by the same poll |
| `Tailer.UndetectedReplacement` | services/c1-ingestion/tailer.py:123-143 | For every observation that shows no rotation or truncation, also a file swapped between stat and open: lines and buffer are those of the new content up to the offset if and only if the bytes already read are still its beginning |
| `Tailer.JoinedAcrossFiles` | services/c1-ingestion/tailer.py:123-161 | An input on which it fails: one line joined from the bytes of two files |
| `Tailer.FileState.CollectFrom` | services/c1-ingestion/tailer.py:62-71 | One poll of a file does one step of the specification and appends exactly the new lines; a vanished file changes nothing |
| `Tailer.FileState.SplitLines` | services/c1-ingestion/tailer.py:155-161 | The buffer becomes the unterminated rest, and the lines are the terminated ones |
| `Tailer.FileState.KeepNonEmpty` | services/c1-ingestion/tailer.py:123-143 | Exactly the non-empty lines are kept, in order |
| `Traffic.NewestUnique` | services/p5-dashboard/store.py:62-69 | The newest minutes are determined by the minutes seen |
| `Traffic.NewestPruned` | services/p5-dashboard/store.py:67-69 | Dropping the least of one minute too many leaves the newest; a minute that was pruned before is the one dropped |
| `Traffic.PrunedCounts` | services/p5-dashboard/store.py:67-69 | A minute pruned before cannot come back with a wrong count |
| `Traffic.SummaryUnique` | services/p5-dashboard/store.py:62-69 | Two tables of the same events in different orders are equal |
| `Traffic.SummaryExactly` | services/p5-dashboard/store.py:62-69 | A domain's table holds at most 60 minutes, all of them seen, none left out for an older one, each with the number of its events |
| `Lexicographic.LessExactly` | services/p5-dashboard/store.py:68 | The order of the minutes: a proper beginning comes first, otherwise the smaller character at the first difference |
| `Traffic.AggregateStore.AddTraffic` | services/p5-dashboard/store.py:62-69 | After every event each domain keeps exactly its 60 greatest distinct minutes, or all if fewer, each with its total count; other domains are unchanged |
| `Traffic.AggregateStore.Bump` | services/p5-dashboard/store.py:62-69 | Counting one event keeps one domain's table exact |
| `Traffic.AggregateStore.Prune` | services/p5-dashboard/store.py:67-69 | The deletion loop removes exactly the least minute |
| `Traffic.AggregateStore.Sorted` | services/p5-dashboard/store.py:68 | The minutes in strictly ascending order, each exactly once |
| `RecentTimes.HeldStep` | services/c3-enrichment/enrich.py:41-64 | Append, trim and cap are one step of the specification, for any clock |
| `RecentTimes.ExactStep` | services/c3-enrichment/enrich.py:41-64 | After an exact deque the next record leaves an exact one if and only if its clock reading is steady: among the last `cap` times it leaves none expired behind one that is not, and revives none that had expired at the reading before |
| `RecentTimes.AlwaysExactly` | services/c3-enrichment/enrich.py:41-64 | After every record the deque holds exactly the newest `cap` times with time >= now - window, in order, if and only if every clock reading is steady |
| `RecentTimes.ExactCount` | services/c3-enrichment/enrich.py:54 | An exact deque is as long as the number of times in the window, up to the cap |
| `RecentTimes.ForwardIsSteady` | services/c3-enrichment/enrich.py:41-54 | A clock that does not run backwards is steady, so the deque is then always exact |
| `RecentTimes.ExpiredIsCounted` | services/c3-enrichment/enrich.py:56-59 | A clock reading that is not steady, with an expired time counted |
| `RecentTimes.LiveIsMissing` | services/c3-enrichment/enrich.py:56-59 | A clock reading that is not steady, with a time of the window missing |
| `RecentTimes.SlightlyBackIsSteady` | services/c3-enrichment/enrich.py:56-59 | A clock set back a little can be steady |
| `RateCounter.RequestRateCounter.Record` | services/c3-enrichment/enrich.py:41-54 | Returns the length of the key's deque for its history since insertion, which for steady readings is the number of records in the window up to the cap; keeps all other surviving keys, and at most `max_ips` keys, the most recent ones |
| `RateCounter.MostRecentKept` | services/c3-enrichment/enrich.py:65-67 | After every record the keys present are the most recently recorded ones, at most `max_ips`, in order |
| `RateCounter.RequestRateCounter.Push` | services/c3-enrichment/enrich.py:45-53 | The key's deque becomes that of its extended history; no other deque changes |
| `RateCounter.RequestRateCounter.TrimWindow` | services/c3-enrichment/enrich.py:56-59 | Removes exactly the leading times before the cutoff |
| `RateCounter.RequestRateCounter.CapPerIp` | services/c3-enrichment/enrich.py:61-63 | Keeps the newest `max_per_ip` times |
| `RateCounter.RequestRateCounter.CapCapacity` | services/c3-enrichment/enrich.py:65-67 | Removes the least recent key when there is one too many |
| `StageCounter.AmongLast` | services/p3-orchestrator/state.py:30-33 | An id is still among the remembered ones if and only if fewer than the cap of new ids came after it |
| `StageCounter.FirstIsCounted` | services/p3-orchestrator/state.py:28-34 | A first delivery is always counted, whatever the memory forgot |
| `StageCounter.CountAtLeast` | services/p3-orchestrator/state.py:28-34 | No count is too low, and a count is exact if and only if only first deliveries were counted for its key |
| `StageCounter.LastEventAtExactly` | services/p3-orchestrator/state.py:21-37 | The time shown for a key is that of its last counted event that has one, and missing only if there is none |
| `StageCounter.CountsExactly` | services/p3-orchestrator/state.py:21-37 | All counts are exact if and only if every redelivery comes before `cap` further new ids |
| `StageCounter.CountedAgain` | services/p3-orchestrator/state.py:28-34 | A run on which it fails: one redelivery after 10,000 further new ids is counted a second time |
| `StageCounter.FirstCountIsDistinct` | services/p3-orchestrator/state.py:21-37 | The exact count is the number of distinct event ids recorded for the key, plus the events without an id |
| `StageCounter.PipelineState.Record` | services/p3-orchestrator/state.py:21-37 | Counts exactly the events whose id is not remembered, and keeps counts, times and the FIFO memory those of the run |
| `StageCounter.PipelineState.DrainChanges` | services/p3-orchestrator/state.py:39-49 | Every delta is positive, no key is listed twice, and all drained deltas then sum up to the count; so over any interleaving drained plus pending is the count |

## Left out

- Integer width: `int` counters, cutoffs and sums are unbounded, so wrap-around of Java's `long` cutoff arithmetic for event times near its limits is not modelled; the value that stands for "nothing yet" is.
- Strings are sequences of Unicode scalar values: the 16,384-character cut, the 2,000-character pattern limit and string order count UTF-16 units in Java, which differ beyond the basic plane.
- Buckets of a window are values in a map rather than objects of their own: no other reference to a bucket exists in the source.
- Rendering of results: severity names, JSON, envelopes beyond ids and the clock reading, the topics and keys of output records, HTTP, message headers, the order of the listed types.
- RequestDetector.Detector.Process: the matched rules are part of the event here; `RuleMatching` models where they come from. Their weights and number, which the score depends on, are the same for every order of the headers.
- EffectivelyOnce.SameTable: needs event ids to be unique in the input and a rule set with unique valid ids; rule set, scope answers and skew verdicts are fixed within the runs compared. Truncation of the matched text is not modelled: rows with the same field have the same text anyway.
- Kafka itself: rebalancing, transactions, offset gaps in a partition, producer batching and compression. The producer keeps the order of what it sends, and a crash loses what is still queued in the crashed process.
- EventBuses.EventBus.ConsumeBatch: publishing outside a batch and from other threads is not modelled; the outer loop of `consume` only repeats the batch.
- Losses in the ingestion service when its own publishing fails, and the random event ids of the first three services: no guarantee is intended there.
- RuleProtocol.CaughtUp: foreign records that happen to be valid rule documents are not modelled, as only the rule service writes rules to the topic; a request that was already on the wire when its process crashed is taken as lost.
- RuleCompaction.CompactionSafeExactly: a record without a value counts as unreadable; replay ignores it, so that it makes no difference whether the log cleaner finally removes it. A round of the cleaner is one step; a topic of which only some segments are already replaced is not modelled.
- RuleServices.RuleStore.Persist: the fallback for file systems without atomic moves, where a crash can leave a partial file, is not modelled.
- The rule-testing endpoint, listing and reading rules, and printing of the loaded rules.
- Times are real numbers in the rate counter and the parser: rounding of floating point is not modelled, overflow of the parser is.
- Tailer: discovery of files by pattern, and decoding of the lines; a line is a sequence of bytes.
- Scope-check caches, the fourth service's thresholds and counters, dashboard bucket arithmetic and the remaining aggregates of the dashboard store: each is a plain counter or a lookup with an expiry time, without an invariant that spans several operations.
- Dashboard scripts, load-test tools, metrics, deployment: presentation or measurement only.
