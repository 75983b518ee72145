# Gatus: alerting, the memory store, and the other stateful parts

A Dafny model of the parts of Gatus that keep state or rewrite data step by step, with proofs about them. `dafny verify dfyconfig.toml` checks everything.

Code that updates objects in place is modelled by classes and methods with loops, each proved against a function of the old state; the theorems are lemmas about those functions. Code that only computes is modelled by functions. I/O, clocks, the zone database and the outcome of sending a notification are parameters; nothing is assumed about them unless a lemma says so.

| part | files |
|---|---|
| alerts, their persistence and restarts | `Alerts`, `AlertLoops`, `AlertRuns`, `AlertPersistence`, `AlertRestarts`, `AlertKeys`, `AlertPrograms`, `ExternalEndpoints`, `AlertObjects` |
| the in-memory status store | `Uptime`, `UptimeQueries`, `EventLog`, `Paging` (what the history means); `Slices`, `UptimeObjects`, `QueryLoops`, `EndpointStatus`, `StatusStore` (the objects) |
| JSON paths | `JsonPath`, `JsonPathMeaning`, `JsonDocuments` |
| the suite context | `ContextTree` (what paths mean), `GoMemory` (maps and slices in memory), `Gontext` (the code) |
| suites | `SuiteStore`, `Suite` |
| maintenance windows | `Maintenance` |
| shared | `Arithmetic`, `Strconv`, `Wrappers` |

## How to read it

**Alerts.** A `World` is an endpoint with its alerts and the table of triggered alerts; `Next` handles one result, `Run` a sequence of them, and `Lifetime` a sequence of results and restarts, each restart with a configuration of its own. Every lemma about runs is about all of them, with notifications that fail and providers that are missing wherever the lemma does not say otherwise. Runs start from any world a start of the program can leave, with restored alerts and counters or without; what a restart restores is the subject of `AlertRestarts`, and of `AlertKeys` for the keys of incidents. A `Program` of `AlertPrograms` is any number of endpoints with one table between them.

**Status store.** `Replay` is the hourly index and `Logged` are the result list and event log as functions of everything ever inserted. `Store.Valid()` says that every endpoint's objects are what its history makes of them, and that nothing is shared between endpoints. A Go slice is a window on an array that may have room to spare; how much, `append` decides. The windows that copies of a status show are recorded in `lent`, with what they showed first; `Variable.Valid()` says they still show it.

**JSON paths.** `Follow` is what the code does with a path split into keys. What it should do is said twice: `Navigate` follows names and indexes, and `Leads` says where a path leads in a document by its members and elements alone.

**Suite context.** `Memory` holds maps and slices as numbered cells. A value `Owns` a tree when it reads as that tree and no cell is reached twice; `Cells` are the cells it reaches.

## Where the code does something else than one would expect

Each of these is proved, for all inputs where it says when.

- *A restart loses count of successes.* Of the counters only the successes persisted with the last listed triggered alert are loaded (`main.go:154-156`), and a failure that sends nothing does not reset that persisted count (`watchdog/alerting.go:44-48`). So alerts are resolved too early, or too late: `RestartCounters`, `RestartKeepsSuccessesIff` and `ResolutionsContinueIff` say exactly when; `RestartCanResolveTooEarly` is an example.
- *A restart can make an alert go off too early.* The counter of failures is set to the threshold of the last restored alert, and alerts that start over count on from there: `InitialsAfterRestartIff`, `RestartCanTriggerTooEarly`.
- *A restart forgets when the last reminder was sent*: `FirstReminderAfterRestartIff`.
- *Reminders of external endpoints ignore their interval*, because the endpoint rebuilt for each result does not carry the time of the last reminder (`config/endpoint/external_endpoint.go:105-116`). The interval is kept exactly when whoever pushes the results keeps it: `ReminderIff`, `IntervalKeptIff`, `TwoFailuresBreakTheInterval`.
- *Suite results can be handed to the wrong endpoint's alerts.* Result i is paired with endpoint i although skipped endpoints have no result (`watchdog/suite.go:56-58`): `PairedRightIff` for given outcomes, `PairedRightForAllOutcomesIff` for a configuration, `CleanupIsMispaired` for an example.
- *A suite that has timed out keeps running*: the `break` at `config/suite/suite.go:142` leaves the `select`, not the loop: `Execute`.
- *A JSON path can stop the program*, exactly when its first key is of the form `name[n]` and the document is neither an object nor null (`jsonpath/jsonpath.go:105`): `WalkPanicsIff`.
- *Uptime queries can skip the last hour*, exactly when the range ends less far into its hour than it started into its first one (`storage/store/memory/memory.go:121-131`): `LastHourVisitedIff`.
- *Negative durations*, which a result pushed for an external endpoint may carry, wrap around in the sum of response times (`storage/store/memory/uptime.go:30`). An average, hourly or over a range, is that of its results exactly when their durations add up to no less than zero: `AverageIsTrueIff`, `HourlyAverageIsTrueIff`, `NegativeDurationIsEnormous`. So an average may be below every hourly average of its range: `AverageIsAtLeastTheLeastIff`, `TrueAverageBelowHourlyAverages`.
- *A maintenance window that reaches into the hour in which the next day's window starts loses that part of it*, because whole hours are compared (`config/maintenance/maintenance.go:109`): `AgreesUnlessOverlooked`, `CorrectAtAllTimesIff`. Start times such as `23x00` and `+5:+9` are accepted: `HhmmAccepts`.
- `Set`'s error for an empty path (`config/gontext/gontext.go:58-88`) cannot occur: `SplitDots` is never empty.

## Model

| member | source | states |
|---|---|---|
| `Alerts.ChecksumDeterminesConfig` | alerting/alert/alert.go:119-129 | two alert configurations with one checksum text agree on every hashed field, so that a persisted row belongs to exactly one such configuration |
| `Alerts.ChecksumIff` | alerting/alert/alert.go:119-129 | two alert configurations have one checksum text exactly when they agree on type, on being enabled, on sending when resolved, on both thresholds and on the description, whether defaults are written out or not; the reminder interval does not count |
| `AlertLoops.HandleActsAlone` | watchdog/alerting.go:27-118 | alerts do not interfere: each alert and its notice come out as if it were the endpoint's only alert, measured against the time of the last reminder before the loop although the loop overwrites it |
| `AlertLoops.HandleLeavesRow` | watchdog/alerting.go:69-102 | rows of other endpoints and of checksums no alert has stay as they are |
| `AlertLoops.HandleWritesRow` | watchdog/alerting.go:69-102 | with distinct checksums an alert's row is written by that alert alone |
| `AlertLoops.HandleCommutesWithPermutation` | watchdog/alerting.go:27-118 | listing the alerts in another order permutes alerts and notices accordingly and leaves counters and stored rows the same |
| `AlertRuns.CountersAreTrailingRuns` | watchdog/alerting.go:28-117 | from any start a counter is at least n exactly when the last n results all failed (all succeeded), or nothing else was handled and the counter had the rest at the start |
| `AlertRuns.TriggeredIsDeclarative` | watchdog/alerting.go:27-118 | from any start an enabled alert is triggered exactly when it was restored so, or a failure that brought the counter to FailureThreshold was notified of, and no success since has brought the counter to SuccessThreshold |
| `AlertRuns.DisabledStaysAsItWas` | alerting/alert/alert.go:102-107 | from any start a disabled alert never changes and announces nothing |
| `AlertRuns.NoticesAlternate` | watchdog/alerting.go:27-118 | from any start, initial notifications and resolutions of an alert take turns, reminders come only in between, and Triggered says whose turn it is |
| `AlertRuns.InitialIff` | watchdog/alerting.go:37-71 | an initial notification goes out exactly when the alert is enabled, no incident is ongoing, and a failure at the threshold can be notified of |
| `AlertRuns.InitialsEarnedIff` | watchdog/alerting.go:29-41 | every initial notification of every run follows FailureThreshold failures in a row, except exactly from starts with failures already counted, for enabled alerts that are not triggered and have a threshold above 1 |
| `AlertRuns.ResolvedIff` | watchdog/alerting.go:84-98 | a resolution comes exactly when an incident is ongoing and a success brings the counter to SuccessThreshold |
| `AlertRuns.ResolutionsEarnedIff` | watchdog/alerting.go:84-98 | every resolution of every run follows SuccessThreshold successes in a row, except exactly from starts with successes already counted, for enabled alerts that are triggered and have a threshold above 1 |
| `AlertRuns.ResolvedAtExactlyTheThreshold` | watchdog/alerting.go:84-98 | once a failure was handled, an alert is resolved after exactly SuccessThreshold successes in a row; before that only a restored alert is, after exactly the successes its counter left to go |
| `AlertRuns.RemindersKeepTheirDistance` | watchdog/alerting.go:34-72 | with a clock that never goes back a reminder comes at least its alert's interval after any notification of the endpoint in an earlier step |
| `AlertRuns.ReminderIff` | watchdog/alerting.go:34-72 | a reminder goes out exactly when an incident is ongoing, a failure at the threshold can be notified of, reminders are enabled, and the alert's interval has passed since the last notification of the endpoint before that step, whichever alert it was for |
| `ExternalEndpoints.PushingIsHandling` | config/endpoint/external_endpoint.go:105-116 | over any sequence of pushed results an endpoint rebuilt for each of them has the counters and Triggered flags of one that is kept |
| `ExternalEndpoints.ReminderIff` | config/endpoint/external_endpoint.go:105-116 | a push sends a reminder exactly when reminders are enabled, an incident is ongoing and the push is a failure at the threshold that can be notified of; no time needs to have passed |
| `ExternalEndpoints.IntervalKeptIff` | config/endpoint/external_endpoint.go:105-116 | over any sequence of pushes the reminder interval is kept exactly when the failing pushes themselves are that far apart |
| `ExternalEndpoints.TwoFailuresBreakTheInterval` | config/endpoint/external_endpoint.go:105-116 | two failures pushed a second apart send a notification and a reminder whose interval is five minutes |
| `AlertPersistence.HandlingKeepsConsistency` | watchdog/alerting.go:69-101 | handling a result keeps the rows of the endpoint and the Triggered flags in agreement |
| `AlertPersistence.RestartKeepsTriggered` | main.go:137-160 | after a restart an alert is triggered exactly when an alert of the old configuration with the same checksum was |
| `AlertPersistence.RestartMakesConsistent` | main.go:137-160 | after a restart, possibly with a changed configuration, rows and Triggered flags agree and the endpoint has no other rows |
| `AlertPersistence.RowsAndFlagsAlwaysAgree` | main.go:135-160 | in every state reached by results and restarts a row exists for an alert if and only if it is triggered, and its success count is below the alert's SuccessThreshold |
| `AlertPersistence.NoticesAlternateAcrossRestarts` | main.go:135-160 | over a whole lifetime with restarts, initial notifications and resolutions of an alert take turns, and it has a row exactly in between |
| `AlertPersistence.PersistedCountIsCurrentIff` | watchdog/alerting.go:44-92 | after a result the persisted success count of a triggered alert is the current one exactly if the result was a success, the alert had no row or one with count 0, or a reminder was due and delivered |
| `AlertRestarts.RestartCounters` | main.go:149-160 | for any old and new configuration, the counters after a restart are the persisted successes and the FailureThreshold of the last listed alert that has a row, or 0; the time of the last reminder is forgotten |
| `AlertRestarts.RestartKeepsSuccessesIff` | main.go:149-160 | a restart right after a result keeps the count of successes exactly if the last listed triggered alert has the current count in its row, in terms of result, old row, clock and provider |
| `AlertRestarts.FirstResolutionAfterRestart` | main.go:149-160 | without a failure since the restart, a resolution comes after exactly the successes that the loaded count leaves to go |
| `AlertRestarts.ResolutionsContinueIff` | main.go:149-160 | counting those before a restart, an alert is always resolved at exactly SuccessThreshold successes in a row if and only if it has no row, or the count before is the loaded one, capped at one below the threshold |
| `AlertRestarts.InitialsAfterRestartIff` | main.go:149-160 | after a restart some run notifies of an alert before FailureThreshold failures in a row exactly if the alert is enabled, has no row and a threshold above 1, and another alert of the endpoint has a row |
| `AlertRestarts.FirstReminderAfterRestartIff` | main.go:149-160 | the first result after a restart sends a reminder exactly if it is a failure that reaches the threshold and can be notified of, however recent the last reminder was |
| `AlertRestarts.RestartCanTriggerTooEarly` | main.go:149-160 | a lifetime in which one failure after a success and a restart notifies of an alert with a threshold of 4 |
| `AlertKeys.KeyAfter` | watchdog/alerting.go:36-116 | after a result an alert has the resolve key its provider has just given it, also if the notification failed, and otherwise the one it had |
| `AlertKeys.KeyIsPersistedIff` | watchdog/alerting.go:44-76 | the row of a triggered alert has the current resolve key exactly if the result was a success or was notified of, or the row had that key before |
| `AlertKeys.KeysSurviveRestarts` | main.go:149-155 | an incident keeps its resolve key over a restart: the alert with the same checksum is triggered with the same key |
| `AlertPersistence.RestartLeavesOtherRows` | storage/store/store.go:68-71 | a restart of one endpoint leaves the rows of all others as they are, whatever the store answers |
| `AlertPrograms.EndpointsAreIndependent` | main.go:135-160 | in a program of any number of endpoints with one table of triggered alerts, whatever happens in whichever order, each endpoint has the counters, alerts and rows that its own results and restarts alone would have given it |
| `AlertPrograms.OthersAreUntouched` | watchdog/alerting.go:69-101 | a result or a restart of one endpoint changes neither counters nor alerts nor rows of another |
| `AlertPersistence.RestartCanResolveTooEarly` | watchdog/alerting.go:44-76 | a lifetime in which, with a threshold of 2, one success after a failure and a restart resolves the alert |
| `AlertObjects.Alert.ValidateAndSetDefaults` | alerting/alert/alert.go:76-90 | thresholds that are not positive become 3 and 2 even when an error is returned; an error is returned exactly for a short reminder interval or a description that would break the payload |
| `AlertObjects.TriggerTurn` | watchdog/alerting.go:35-80 | one turn of the loop over mutable alerts, with every field and the row it leaves behind |
| `AlertObjects.ResolveTurn` | watchdog/alerting.go:85-116 | the same for the resolving loop |
| `AlertObjects.HandleAlertsToTrigger` | watchdog/alerting.go:27-81 | the loop over alert objects does what the function behind the run theorems does, to alerts, counters, reminder time and rows |
| `AlertObjects.HandleAlertsToResolve` | watchdog/alerting.go:83-118 | the same for successes |
| `AlertObjects.HandleAlerting` | watchdog/alerting.go:16-25 | one step of a run; nothing happens without an alerting configuration |
| `AlertObjects.CollectEnabledChecksums` | main.go:138-143 | the checksums that pruning keeps are those of the enabled alerts |
| `AlertObjects.InitializeEndpoint` | main.go:137-160 | the loops that prune and reload one endpoint do what the function behind the restart theorems does, and leave the rows of every other endpoint as they are |
| `Uptime.IndexAgreesWithHistory` | storage/store/memory/uptime.go:16-43 | every hour no clean-up has cut off holds exactly the count, successes and response time of all results ever inserted in that hour |
| `Uptime.CleanedBeforeLatestCutOff` | storage/store/memory/uptime.go:35-41 | with a clock that never goes back the hours that were cut off are those before the latest cut-off |
| `Uptime.ThirtyDaysAreKept` | storage/store/memory/uptime.go:9-12 | with a clock that never goes back, no hour of the last 30 days is ever cut off, in nanoseconds |
| `Uptime.FewHoursAreKept` | storage/store/memory/uptime.go:35 | nothing is cut off as long as all results fell into at most 768 hours |
| `Uptime.CleanedIff` | storage/store/memory/uptime.go:35-41 | exactly which hours are cut off: those for which some insertion found more than 768 hours when they had begun over 30 days and an hour before the clock |
| `Uptime.HourOfIff` | storage/store/memory/uptime.go:20 | an hour begins at a multiple of 3600 seconds and holds the timestamps up to the next one, also before 1970 |
| `Uptime.MillisecondsIff` | storage/store/memory/uptime.go:30 | a duration counts the milliseconds that it fills, on either side of zero |
| `Uptime.IndexStaysSmall` | storage/store/memory/uptime.go:35-41 | with a clock that never goes back and no result stamped later than it, the index never holds more than 768 hours, and at most 722 right after a clean-up |
| `UptimeObjects.Uptime.ProcessUptimeAfterResult` | storage/store/memory/uptime.go:16-43 | updating buckets in place and deleting keys in any order does to the index what Replay says, whose hours IndexAgreesWithHistory, ThirtyDaysAreKept and CleanedIff describe |
| `UptimeObjects.Uptime.CleanUp` | storage/store/memory/uptime.go:36-41 | exactly the hours before the cut-off go, the others keep their buckets |
| `UptimeQueries.LastHourVisitedIff` | storage/store/memory/memory.go:120-131 | the hour in which the range ends is looked at exactly when the range ends at least as far into its hour as it started into its first |
| `UptimeQueries.RangeSumIsHistory` | storage/store/memory/memory.go:117-133 | if the first hour has not been cut off, the query's totals are those of the whole history over the visited hours, each once |
| `UptimeQueries.LastThirtyDaysAreAnswered` | storage/store/memory/memory.go:117-133 | with a clock that never goes back, queries that start within the last 30 days answer from the full history |
| `UptimeQueries.RatioIsUptime` | storage/store/memory/memory.go:130-133 | the uptime is between 0 and 1, times the number of results it is the number of successes, it is 0 without results, and 1 exactly if all of at least one succeeded |
| `UptimeQueries.MeansBracket` | storage/store/memory/memory.go:148-189 | some visited hours bound the mean of all of them from below and above |
| `UptimeQueries.AverageIsBetweenHourlyAverages` | storage/store/memory/memory.go:137-190 | the average lies between the least and greatest hourly average of the range if the sum does not wrap, and is never above the greatest |
| `UptimeQueries.AverageIsAtLeastTheLeastIff` | storage/store/memory/memory.go:148-189 | the average is at least the least hourly average exactly if the response times exceed that average, taken for every execution, by what their sum has lost in wrapping around |
| `UptimeQueries.AverageIsTrueIff` | storage/store/memory/memory.go:148-163 | the average is that of all results ever inserted in the visited hours exactly if their durations add up to at least 0 and less than 2^64 milliseconds |
| `UptimeQueries.HourlyAverageIsTrueIff` | storage/store/memory/memory.go:176-189 | likewise for every hourly average |
| `UptimeQueries.NonNegativeDurationsDoNotWrap` | storage/store/memory/uptime.go:30 | without negative durations the buckets of a range add up to no more than was measured |
| `UptimeQueries.NegativeDurationIsEnormous` | storage/store/memory/uptime.go:30 | a single result of -1 ms has the average 2^64 - 1 ms |
| `UptimeQueries.TrueAverageBelowHourlyAverages` | storage/store/memory/uptime.go:30 | two results, one with a negative duration, whose average is right and yet below both hourly averages |
| `QueryLoops.UptimeOver` | storage/store/memory/memory.go:117-133 | the loop over hours computes the share of successes among the executions of the visited hours, 0 if there are none |
| `QueryLoops.AverageResponseTimeOver` | storage/store/memory/memory.go:147-163 | the loop computes the mean of the wrapped sum, 0 without executions |
| `QueryLoops.HourlyAverageResponseTimesOver` | storage/store/memory/memory.go:176-189 | the map filled in place has exactly the visited hours with executions as keys, each with the mean of its bucket |
| `StatusStore.Store.InsertEndpointResult` | storage/store/memory/memory.go:193-209 | the history of that endpoint grows by the result and everything in the store still agrees with its history; new endpoints start with START; no other endpoint is written to |
| `StatusStore.Store.AddAndSet` | storage/store/memory/memory.go:205-206 | adding to one status keeps the whole store in agreement with the histories |
| `StatusStore.Store.GetUptimeByKey` | storage/store/memory/memory.go:106-134 | both errors, and otherwise the ratio of the index over the visited hours; if the first hour has not been cut off this is the share of successes among all results ever inserted in them, between 0 and 1, and 1 exactly if all of at least one succeeded |
| `StatusStore.Store.GetAverageResponseTimeByKey` | storage/store/memory/memory.go:137-164 | the same for the average response time |
| `StatusStore.Store.GetHourlyAverageResponseTimeByKey` | storage/store/memory/memory.go:167-190 | both errors, and otherwise one mean for every visited hour with executions; if the first hour has not been cut off, these are the hours in which results were ever inserted, and the means of all of them |
| `StatusStore.Store.GetEndpointStatusByKey` | storage/store/memory/memory.go:84-92 | the requested part of what the history makes of the lists, as views that later insertions do not change |
| `EventLog.ResultsAreTheEndOfTheHistory` | storage/store/memory/util.go:103-109 | the result list is the last min(n, limit) results of the history |
| `EventLog.EventsAreTheEndOfTheFullLog` | storage/store/memory/util.go:88-102 | with room for a result, the event log is the end of START followed by one event per run of equal outcomes |
| `EventLog.NoResultsKeptNoEventsDropped` | storage/store/memory/util.go:88-109 | without room for results every result leaves an event and none is dropped |
| `EventLog.OutcomesCanBeReadOff` | config/endpoint/event.go:31-39 | the outcome of every past result, and the timestamp of the result since which it is so, can be read off the run-compressed log |
| `EventLog.EventLogInvariant` | storage/store/memory/util.go:84-111 | with both limits at least 1 the log is never empty nor longer than max(2, limit), neighbouring events differ in type, and the last one matches the last result |
| `EventLog.EventsVanishIff` | storage/store/memory/util.go:91-98 | the log is empty exactly if there is no room for events and a third one has happened |
| `Slices.Variable.Append` | storage/store/memory/util.go:91 | append, in place or reallocating, adds one element and leaves every view handed out as it was |
| `Slices.Variable.KeepLast` | storage/store/memory/util.go:92-97 | reslicing keeps the last n elements and every view |
| `Slices.Variable.View` | storage/store/memory/util.go:30 | a view shares the array and is remembered with what it shows |
| `EndpointStatus.NewStatus` | storage/store/memory/memory.go:197-204 | an empty status with a single START event |
| `EndpointStatus.AddResult` | storage/store/memory/util.go:84-111 | nil is ignored; otherwise both lists and the index become what they should, and views keep their contents |
| `EndpointStatus.AddToHistory` | storage/store/memory/util.go:84-111 | after AddResult the status is what its longer history makes of it |
| `EndpointStatus.ShallowCopyEndpointStatus` | storage/store/memory/util.go:11-41 | the copy shows the requested pages, or everything without paging parameters, as lent views or empty lists |
| `EndpointStatus.ShownIs` | storage/store/memory/util.go:22-37 | a list is shown whole without parameters or if all four page numbers and sizes are 0, and by page otherwise |
| `EndpointStatus.CopyThenAdd` | storage/store/memory/util.go:11-41 | a copy taken before any number of insertions shows afterwards what it showed when it was taken, although it shares its arrays |
| `Paging.IndicesAreInRange` | storage/store/memory/util.go:65-80 | slicing never fails when neither index is negative, which is the case exactly for possible parameters and a page that starts before the beginning; the corrections beyond the end never apply |
| `Paging.PagesAreTheNewest` | storage/store/memory/util.go:65-80 | pages k to 1 one after the other are the newest k times pageSize entries, in order |
| `Paging.PagesPartitionTheList` | storage/store/memory/util.go:65-80 | all pages one after the other are the list |
| `Paging.PageSizes` | storage/store/memory/util.go:65-80 | page 1 is the newest entries, a page has entries exactly up to the last page, and only the last can be short |
| `JsonPath.DeletingTheFirstKey` | jsonpath/jsonpath.go:45-53 | deleting the first "key." removes exactly the leading key, leaves the path unchanged exactly at the last key, and what remains splits into the remaining keys |
| `JsonPath.ScanBrackets` | jsonpath/jsonpath.go:74-88 | the bracket scan finds the first opening bracket and the next bracket, if that one closes, the text between them, and whether another opens at once; otherwise it finds nothing |
| `JsonPath.ExtractValue` | jsonpath/jsonpath.go:69-131 | the recursive extraction computes Extract and terminates |
| `JsonPath.SplitKeys` | jsonpath/jsonpath.go:25-41 | the loop splits at dots outside brackets |
| `JsonPath.Walk` | jsonpath/jsonpath.go:24-67 | re-splitting and rewriting the path at every level equals splitting once and following the keys, and terminates |
| `JsonPathMeaning.ExtractPanicsIff` | jsonpath/jsonpath.go:105-109 | extraction panics exactly if the key indexes a field and the value is neither an object nor null |
| `JsonPathMeaning.WalkPanicsIff` | jsonpath/jsonpath.go:105-109 | only the first key can make the walk panic, under the same condition on the document |
| `JsonPathMeaning.DataOfAListPanics` | jsonpath/jsonpath.go:105 | data[0] on a list panics |
| `JsonPathMeaning.DecimalIndexesWork` | jsonpath/jsonpath.go:89-92 | every index that fits an int can be written in decimal and means itself |
| `JsonPathMeaning.DecimalIndexIff` | jsonpath/jsonpath.go:89-92 | a decimal number is read as an index exactly if it is not negative and fits an int, and then as itself |
| `JsonPathMeaning.ExtractRendered` | jsonpath/jsonpath.go:69-131 | a key written as a name and indexes selects the field and then element by element |
| `JsonPathMeaning.WalkNavigates` | jsonpath/jsonpath.go:24-67 | a path written as names and indexes is navigated segment by segment, for every document |
| `JsonPathMeaning.KeysWithoutIndex` | jsonpath/jsonpath.go:117-130 | a key without an index selects the member of that name, nothing if there is none, and leaves lists and scalars whole |
| `JsonDocuments.WalkReports` | jsonpath/jsonpath.go:24-67 | if a path, or its keys up to one after which there is no object, lead to a value in a document, member by member and element by element, the walk reports it: a text or list with its length, an object, another scalar, nothing for null, and an error for a text with keys left |
| `JsonDocuments.WalkFindsNothing` | jsonpath/jsonpath.go:102-124 | a key whose name is absent or whose position is beyond its list ends the walk with nothing there, whatever keys follow |
| `JsonDocuments.WalkOfOtherDocuments` | jsonpath/jsonpath.go:117-130 | a document that is a list or a scalar is reported itself, whatever name is asked for |
| `JsonDocuments.UserName` | jsonpath/jsonpath.go:24-67 | for example, users[1].name finds the text "x" in {"users":[null,{"name":"x"}]} |
| `ContextTree.JoinOfSplit` | config/gontext/gontext.go:37-88 | splitting a path at dots loses nothing |
| `ContextTree.LookupStored` | config/gontext/gontext.go:37-88 | after storing at a path, that path finds the value and every extension finds what is inside it |
| `ContextTree.LookupElsewhere` | config/gontext/gontext.go:37-88 | every path that is neither a prefix nor an extension answers as before |
| `ContextTree.PrefixesAreMaps` | config/gontext/gontext.go:58-88 | every strict prefix of the path leads to a map afterwards, also where a scalar was overwritten |
| `ContextTree.StoreTwice` | config/gontext/gontext.go:58-88 | of two values stored at one path the second remains |
| `ContextTree.StoresCommute` | config/gontext/gontext.go:58-88 | stores at paths of which neither is a prefix of the other can be swapped |
| `GoMemory.Isolated` | config/gontext/gontext.go:91-121 | whatever happens to the cells of one value, a value that shares none of them stays as it was |
| `GoMemory.ResolveIsLookup` | config/gontext/gontext.go:37-55 | following a path through maps in memory finds what looking it up in the tree finds |
| `GoMemory.WriteStores` | config/gontext/gontext.go:58-88 | writing one entry of the map a path leads to stores at that path in the tree, and nowhere else |
| `GoMemory.CreatingMapsOnTheWay` | config/gontext/gontext.go:68-84 | the empty maps created on the way change nothing for the store they prepare |
| `Gontext.DeepCopyValue` | config/gontext/gontext.go:103-121 | the copy reads as the original, is made of new cells only, shares nothing within itself, and the recursion ends |
| `Gontext.Gontext.Get` | config/gontext/gontext.go:37-55 | the loop finds exactly what the tree has at the path |
| `Gontext.Gontext.Set` | config/gontext/gontext.go:58-88 | the loop stores at the path in the tree; no cell outside the context changes |
| `Gontext.Gontext.GetAll` | config/gontext/gontext.go:91-100 | a copy of everything that shares no cell with the context or with anything older |
| `Gontext.New` | config/gontext/gontext.go:22-34 | a context that equals the initial values and shares no cell with them |
| `SuiteStore.StoreResultValues` | config/suite/suite.go:174-198 | every mapping is tried in some order, whatever fails before it; the values that can be resolved can be looked up afterwards at their keys, every path that no resolved key touches answers as before, and an error is reported if and only if a value could not be resolved |
| `SuiteStore.StoredIsFound` | config/suite/suite.go:188-191 | a value that was stored is found at its key, if nothing stored later is a prefix or an extension of it |
| `SuiteStore.WhatIsFound` | config/suite/suite.go:180-191 | in whatever order the mappings are visited, every resolved key that no other one contains or extends is found with its value, and every path that no resolved key touches answers as before |
| `SuiteStore.OrderIsIrrelevant` | config/suite/suite.go:180 | if no key is a prefix of another, the map's iteration order does not matter |
| `Suite.FailedBeforeMeans` | config/suite/suite.go:131-136 | an endpoint counts as coming after a failure exactly when one before it ran and failed |
| `Suite.Results` | config/suite/suite.go:132-160 | the results are those of the endpoints that run, in order, each with its own evaluation |
| `Suite.ResultIs` | config/suite/suite.go:146-161 | each result carries name and success of its endpoint, and whether a value to be stored was not there, which does not fail it |
| `Suite.LastStoreDecides` | config/suite/suite.go:153-158 | what is found under a key is the value that the last endpoint storing something there has stored, even if it failed |
| `Suite.ContextRemembers` | config/suite/suite.go:153-158 | that holds for every key of a suite, and every path that no endpoint that ran has touched answers as before |
| `Suite.SuiteResult.CalculateSuccess` | config/suite/result.go:42-55 | success if and only if no error was recorded and every result succeeded |
| `Suite.Execute` | config/suite/suite.go:116-171 | which endpoints have results; that the suite succeeds exactly when all of these did and the timer had not fired before one of them; that at most one timeout is recorded and does not stop it; that the values stored last, and what was there before, can be looked up in the copied context; and that nothing older is written to |
| `Suite.PairedRightIff` | watchdog/suite.go:56-58 | with distinct names alerting gets every result with its own endpoint if and only if no skipped endpoint precedes an executed one |
| `Suite.PairedRightForAllOutcomesIff` | watchdog/suite.go:56-58 | a suite is paired right whatever its outcomes if and only if, but for its first endpoint, no endpoint that may be skipped is configured before one that always runs |
| `Suite.CleanupIsMispaired` | watchdog/suite.go:56-58 | the result of an always-run clean-up is taken for that of the endpoint skipped before it |
| `Suite.ResultsForAlerting` | watchdog/suite.go:56-75 | the loop hands over the pairs of equal position that are not in maintenance, all of them, once each, in order |
| `Maintenance.AgreesUnlessOverlooked` | config/maintenance/maintenance.go:100-125 | at every instant the code agrees with "some scheduled window contains it" if and only if yesterday's window is not overlooked |
| `Maintenance.CorrectAtAllTimesIff` | config/maintenance/maintenance.go:100-125 | a configuration is right at all instants if and only if its duration is at most 24 hours less the minutes of its start |
| `Maintenance.OpenIff` | config/maintenance/maintenance.go:108-125 | for those durations, in nanoseconds: maintenance is on exactly strictly between the start and the end of the window of some day that is listed, or of any day if none is |
| `Maintenance.Weekdays` | config/maintenance/maintenance.go:116 | 1 January 1970 was a Thursday, and the days follow each other |
| `Maintenance.ThursdayNight` | config/maintenance/maintenance.go:108-124 | a window that starts on Thursdays at 23:30 for two hours is open at one on Friday, not at half past one, and not at one on Thursday |
| `Maintenance.HhmmAccepts` | config/maintenance/maintenance.go:127-148 | exactly which texts are read as a given hour and minute |
| `Maintenance.HhmmIsValidStart` | config/maintenance/maintenance.go:139-143 | whatever is accepted is a whole minute within the day |
| `Maintenance.MaintenanceConfig.ValidateAndSetDefaults` | config/maintenance/maintenance.go:68-97 | accepted if and only if disabled or days, start, duration and zone are all valid; the zone defaults to UTC |
| `Maintenance.MaintenanceConfig.IsUnderMaintenance` | config/maintenance/maintenance.go:100-125 | never true outside every scheduled window, and right unless the end of yesterday's window is overlooked |

## Left out

- Alert providers and the messages they send: `Send` may succeed or fail in any way, and may set any resolve key.
- Probing endpoints, conditions, tunnels, metrics, the HTTP API, badges, the web application: an evaluation is an arbitrary result.
- The SQL store: its table of triggered alerts is a map from endpoint and checksum to resolve key and success count, whose operations may fail; the rest of it is not part of this model.
- The in-memory store's versions of the operations on triggered alerts, which do nothing.
- SHA-256: the checksum is the hashed text itself, for alert types without an underscore, as all of them are.
- The outer loops of initializeStorage over endpoints, external endpoints and suite endpoints, and its pruning of endpoints and suites: each endpoint is initialized by itself, and `AlertPrograms` shows that this touches no other.
- Parsing of YAML and JSON, `fmt.Sprintf`, `json.Marshal`: documents are already parsed; a walk reports which value it renders, not its text.
- Locks, goroutines and the monitoring semaphore: every method of the store is one step.
- Zone databases and daylight-saving shifts: a zone is a fixed offset, a date is a day number.
- Rounding of floating-point numbers: uptimes are exact ratios, averages are integer quotients; the conversion of averages of 2^63 and more to int is not modelled.
- More than 2^64 executions in an hour or a range; overflow of page numbers times page sizes.
- Results are values: that the store keeps pointers to results, which its callers could change, is not modelled.
- Negative limits on results and events, with which reslicing would fail. Limits of 0 are modelled; `storage/config.go:52-57` replaces both.
- The entry of a new endpoint in the cache is made by the same step that creates it, under the one lock.
- Suite statuses in memory (InsertSuiteResult, GetSuiteStatusByKey), which use the same slicing and paging; sorting of all statuses; deleting statuses of removed endpoints; HasEndpointStatusNewerThan.
- Values in a suite context other than maps, slices and scalars; contexts in which one map is reachable along two paths.
- Sanitizing of keys, validation of suites and storage settings.
- UptimeQueries.AverageIsBetweenHourlyAverages: the lower bound is stated for sums below 2^64 only; AverageIsAtLeastTheLeastIff says exactly when it holds.
