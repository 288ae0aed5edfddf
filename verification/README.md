# Verified model of TimeLord

TimeLord keeps devices to a timetable. A controller (Java) holds the timetables, an agent on each device (Rust)
enforces them, and a notifier (Rust) warns the user. This project models the logic of the three programs in Dafny and
proves what that logic is for. `dafny verify dfyconfig.toml` checks everything.

The parts, and the files that hold them:

- **Schedules** (`ScheduleResolver`, `ScheduleMeaning`, `ScheduleCanonical`, `ScheduleGaps`, `LocalClock`): weekly rows
  and dated overrides are expanded day by day, sorted, merged and complemented into off windows. The off windows are
  the exact complement of what the rows allow, by the local clock too, and it is known exactly when they are canonical.
- **Power settings** (`DeviceService`, `DeviceProperties`, `DeviceOperations`, `ScheduleCut`, `ScheduleRevision`):
  extensions, holds and forced off on top of the schedule. Each operation has exactly its effect on when the device is
  off, what an agent fetched stays right until its horizon, what is displayed agrees with what is enforced, and the
  revision changes exactly when the windows do.
- **Conversion of old rules** (`LegacyScheduleConverter`, `ConversionMeaning`): marking a circular week, finding runs
  and splitting them at midnight. Meaning is preserved up to the off windows, exactly when the old rules allow any
  time.
- **Event delivery** (`EventQueue`, `EventStore`, `Delivery`, `DeliveryCapacity`, `DeliveredEvents`, `RetryBounds`): a
  bounded queue with backoff, a lossy link, an idempotent store, and crashes. No event is lost or stored twice, only a
  full queue drops any, and giving up takes 48 tries over 76900 seconds.
- **Usage tracking** (`UsageTracker`, `UsageTime`, `UsageResumed`, `UsageRecorder`, `UsageStored`): recorded time is the
  time the device was in use, down to the stored rows, and the store agrees with the tracker across crashes.
- **Session reconstruction** (`DeviceSessions`): one loop over the event log equals a definition that mentions no
  loop, and each session ends exactly where the log says.
- **Warnings** (`NotifierEngine`, `NotifierRuns`): every off time is announced at 900, 300, 60 and 30 seconds, each
  once.
- **Messages** (`Messages`, `MessageDelivery`): each is shown in time, none is skipped, and it is known exactly when
  one is shown twice.
- **Clock** (`Clock`, `MedianOrder`): timestamps on the wire, the offset of one exchange, and a median that tolerates a
  minority of wrong servers.
- `Lists`: the filtering and stable sorting that the programs take from their standard libraries.

Code that changes state is modelled by classes and methods with loops. Each is proved against a specification
function, and the properties are proved of that function, so they hold of the methods. Protocols are state machines
whose steps use the same functions; fields called history exist only to state properties.

Conventions: instants are integer milliseconds, dates are days since 1970, Monday is day 0. Identifiers are numbers. A
time zone is a triple of maps; what is asked of it is `Zone.Lawful`, which leaves out monotonicity inside a day, so
that a window in a daylight-saving gap may end before it starts. Clock readings that a method takes one after the
other are separate parameters.

## Model

| member | source | states |
|---|---|---|
| ScheduleResolver.Merge | controller/src/main/java/com/timelord/controller/schedule/ScheduleResolver.java:113-126 | the stable sort by start and the loop that replaces the last merged window compute `Merged` of the sorted windows, whose meaning is `MergedCovers` and `MergedSeparated` |
| ScheduleResolver.DayWindows | controller/src/main/java/com/timelord/controller/schedule/ScheduleResolver.java:43-52 | the two loops of one day collect exactly that day's row windows followed by its override windows |
| ScheduleResolver.Expand | controller/src/main/java/com/timelord/controller/schedule/ScheduleResolver.java:40-53 | the day loop visits every day from the day before the range up to its last day, once and in order |
| ScheduleResolver.ResolveAllowed | controller/src/main/java/com/timelord/controller/schedule/ScheduleResolver.java:34-55 | computes the allowed windows whose meaning is `AllowedWindowsExact` |
| ScheduleResolver.GapsBetween | controller/src/main/java/com/timelord/controller/schedule/ScheduleResolver.java:73-85 | the cursor loop computes `AllGaps`, the exact complement by `AllGapsExact` |
| ScheduleResolver.ResolveOff | controller/src/main/java/com/timelord/controller/schedule/ScheduleResolver.java:63-87 | computes the off windows whose meaning is `OffWindowsExact` |
| ScheduleMeaning.MergedCovers | controller/src/main/java/com/timelord/controller/schedule/ScheduleResolver.java:113-126 | merging neither adds nor loses an instant, also when a window ends before it starts |
| ScheduleMeaning.MergedSorted | controller/src/main/java/com/timelord/controller/schedule/ScheduleResolver.java:113-126 | merging keeps the order of starts |
| ScheduleMeaning.ScannedDaysSuffice | controller/src/main/java/com/timelord/controller/schedule/ScheduleResolver.java:39-42 | any day whose row or override window contains an instant of the range is among the days scanned, so one day back is enough |
| ScheduleMeaning.AllowedWindowsExact | controller/src/main/java/com/timelord/controller/schedule/ScheduleResolver.java:34-55 | an instant of the range asked for is in an allowed window exactly when some enabled row or override of any day contains it |
| ScheduleMeaning.AllGapsExact | controller/src/main/java/com/timelord/controller/schedule/ScheduleResolver.java:73-85 | the gaps contain exactly the instants of the range that no allowed window contains |
| ScheduleMeaning.DayGapsExact | controller/src/main/java/com/timelord/controller/schedule/ScheduleResolver.java:63-85 | before the last filter, the gaps are already exact from local midnight of the day before to the midnight after the range |
| ScheduleMeaning.OffWindowsExact | controller/src/main/java/com/timelord/controller/schedule/ScheduleResolver.java:34-126 | main: an instant of [from, to) is in an off window exactly when some row is enabled and no enabled row or override window of any day contains it |
| ScheduleMeaning.NoEnabledRowNothingOff | controller/src/main/java/com/timelord/controller/schedule/ScheduleResolver.java:65-68 | with no enabled row there is no off window |
| ScheduleMeaning.OverrideNeverAddsOffTime | controller/src/main/java/com/timelord/controller/schedule/ScheduleResolver.java:22-23 | adding any override, enabled or not, never takes the device off at an instant it was allowed |
| ScheduleCanonical.MergedSeparated | controller/src/main/java/com/timelord/controller/schedule/ScheduleResolver.java:113-126 | when every window ends after it starts, merged windows are in order with time strictly between them |
| ScheduleCanonical.OffWindowsOrdered | controller/src/main/java/com/timelord/controller/schedule/ScheduleResolver.java:63-87 | in every zone, off windows are non-empty, their starts never decrease, and they overlap [from, to) |
| ScheduleCanonical.OffWindowsCanonical | controller/src/main/java/com/timelord/controller/schedule/ScheduleResolver.java:63-126 | when every scanned window ends after it starts, off windows are sorted, non-empty and disjoint, with allowed time between neighbours |
| ScheduleGaps.MergedApart | controller/src/main/java/com/timelord/controller/schedule/ScheduleResolver.java:113-126 | whatever the windows, any merged one ends before any later one starts, even if it ends before it starts itself |
| ScheduleGaps.OffWindowsCanonicalExactly | controller/src/main/java/com/timelord/controller/schedule/ScheduleResolver.java:63-126 | main: in every lawful zone off windows are canonical if and only if each allowed window ends after it starts, or starts no later than the range, or the windows up to it reach past the range |
| ScheduleGaps.DayGapsCanonicalExactly | controller/src/main/java/com/timelord/controller/schedule/ScheduleResolver.java:63-85 | main: in every zone the gaps before the last filter are canonical if and only if every allowed window ends after it starts |
| ScheduleGaps.SpringForwardLawful | controller/src/main/java/com/timelord/controller/schedule/ScheduleResolver.java:40-41 | a zone whose clocks go forward an hour meets the zone hypotheses |
| ScheduleGaps.ClockChangeSpoils | controller/src/main/java/com/timelord/controller/schedule/ScheduleResolver.java:104-111 | in that zone, with three given rows, two off windows start together and overlap, for every range over the change |
| ScheduleCanonical.OnlyEndedWindowsDrop | controller/src/main/java/com/timelord/controller/schedule/ScheduleResolver.java:57-62 | later on the same local date the answer is the earlier one without the windows that have ended |
| ScheduleCanonical.SameDatesSameWindows | controller/src/main/java/com/timelord/controller/schedule/ScheduleResolver.java:57-62 | two calls with `from` on one local date and `to` on one local date agree on every window that overlaps both ranges |
| ScheduleCanonical.FixedOffsetLawful | controller/src/main/java/com/timelord/controller/schedule/ScheduleResolver.java:40-41 | the hypotheses about zones hold in every zone whose clocks never change |
| ScheduleCanonical.FixedOffsetCanonical | controller/src/main/java/com/timelord/controller/schedule/ScheduleResolver.java:63-126 | in such a zone off windows are canonical for all rows and overrides, without further hypothesis |
| LocalClock.WeekdaysKnown | controller/src/main/java/com/timelord/controller/schedule/ScheduleResolver.java:44-44 | day 0 is a Thursday, day 4 a Monday, and the weekday moves on by one each day, from Sunday to Monday |
| LocalClock.RowWindowExact | controller/src/main/java/com/timelord/controller/schedule/ScheduleResolver.java:97-111 | a row's window on a date runs from its start to its end, to the next date's midnight if it ends at 00:00, and is none if it ends no later than it starts |
| LocalClock.OverrideWindowExact | controller/src/main/java/com/timelord/controller/schedule/ScheduleResolver.java:48-52 | so does an override's, on each of its dates, whatever the weekday |
| LocalClock.OffByLocalClock | controller/src/main/java/com/timelord/controller/schedule/ScheduleResolver.java:34-126 | main: where the clocks never change, the off windows of any range contain exactly those of its instants at which, by local date, weekday and time of day, some row being enabled, no enabled row or override is on |
| DeviceService.Device.ClearPower | controller/src/main/java/com/timelord/controller/device/DeviceService.java:201-206 | back to following the schedule; schedule and extension untouched |
| DeviceService.Device.PowerOn | controller/src/main/java/com/timelord/controller/device/DeviceService.java:162-167 | cancels a forced off and any hold, keeping the extension |
| DeviceService.Device.PowerOff | controller/src/main/java/com/timelord/controller/device/DeviceService.java:170-182 | refuses a grace outside 0 to 240 minutes and changes nothing then; otherwise off from now plus the grace, with hold and extension cleared; its effect is `PowerOffExact` |
| DeviceService.Device.HoldOn | controller/src/main/java/com/timelord/controller/device/DeviceService.java:188-199 | refuses a hold outside a minute to a week and changes nothing then; otherwise on until the hold ends, with forced off and extension cleared |
| DeviceService.Device.Extend | controller/src/main/java/com/timelord/controller/device/DeviceService.java:220-239 | refuses under a power override, without a schedule, with an unknown one and without an off window in two days, in that order; otherwise only the extension changes |
| DeviceService.Device.ClearExtension | controller/src/main/java/com/timelord/controller/device/DeviceService.java:257-263 | only the extension changes |
| DeviceService.Device.AssignSchedule | controller/src/main/java/com/timelord/controller/device/DeviceService.java:270-281 | an unknown schedule is refused; otherwise the schedule changes and the extension is cleared |
| DeviceService.ActiveWindow | agent/src/schedule.rs:49-53 | finds a window exactly when one contains the instant, and that one contains it |
| DeviceService.NextOffAt | agent/src/schedule.rs:56-62 | the earliest start after the instant, if any |
| DeviceService.NothingBeforeNextOff | agent/src/schedule.rs:49-62 | an agent outside every window may sleep until the next start: it stays outside until then |
| DeviceProperties.EveryRunConsistent | controller/src/main/java/com/timelord/controller/device/DeviceService.java:161-281 | after any run of operations: forced off excludes holds and extensions, a hold that ends in off excludes extensions, and a hold still in force excludes an extension |
| DeviceProperties.ExtensionExact | controller/src/main/java/com/timelord/controller/schedule/ScheduleService.java:175-184 | for any windows at all, extending removes exactly the off instants before the extension |
| DeviceProperties.ExtensionKeepsOrder | controller/src/main/java/com/timelord/controller/schedule/ScheduleService.java:175-184 | extending keeps windows ordered and non-empty, and moves a start only to the extension itself |
| DeviceProperties.ScheduleForExact | controller/src/main/java/com/timelord/controller/schedule/ScheduleService.java:135-149 | up to the horizon the schedule handed out is off exactly when the rows say so and the extension is over |
| DeviceProperties.ForcedOffExact | controller/src/main/java/com/timelord/controller/schedule/ScheduleService.java:159-165 | off from the given instant for good, whatever the rows say |
| DeviceProperties.FetchedScheduleExact | controller/src/main/java/com/timelord/controller/device/DeviceService.java:144-154 | in a consistent device state the fetched schedule is off exactly when forced off, a hold, the extension and the rows together require it |
| DeviceProperties.CachedCopyStaysRight | controller/src/main/java/com/timelord/controller/device/DeviceService.java:144-239 | main: in every reachable state, with no operation since, the schedule fetched at t0 is off at t exactly when the one the controller would build at t is, for every t from t0 to its horizon |
| DeviceProperties.DisplayedStateAgrees | controller/src/main/java/com/timelord/controller/device/PowerStatus.java:24-39 | main: in every reachable state OFF and HOLD_ENDED_OFF are off now, OFF_PENDING and HOLD are not, and SCHEDULE is off exactly when the rows and the extension say so |
| DeviceProperties.NothingOffBeforeFirst | controller/src/main/java/com/timelord/controller/schedule/ScheduleService.java:167-173 | nothing is off before the first effective window |
| DeviceProperties.ExtendAddsUp | controller/src/main/java/com/timelord/controller/device/DeviceService.java:220-239 | main: a granted extension of m minutes ends m after a base that is at least now and at least the old extension and is the device's earliest off instant from now on; from then on the off set is the schedule's own |
| DeviceOperations.PowerOffExact | controller/src/main/java/com/timelord/controller/device/DeviceService.java:170-182 | granted exactly for a grace of 0 to 240 minutes; then the device is off at an instant exactly when the grace is over, whatever the rows say; refused, nothing changes |
| DeviceOperations.HoldOnExact | controller/src/main/java/com/timelord/controller/device/DeviceService.java:188-199 | granted exactly for 1 to 10080 minutes; then the device is on until the hold is over, and afterwards off for good, or as its rows say; refused, nothing changes |
| DeviceOperations.PowerOnExact | controller/src/main/java/com/timelord/controller/device/DeviceService.java:162-167 | afterwards the device is off exactly when its rows say so and any extension is over |
| DeviceOperations.ClearExtensionExact | controller/src/main/java/com/timelord/controller/device/DeviceService.java:257-263 | a forced off or a hold that ends in off stays as it is; otherwise the rows decide from the end of any hold, and no extension any more |
| DeviceOperations.AssignScheduleExact | controller/src/main/java/com/timelord/controller/device/DeviceService.java:270-281 | refused exactly for an unknown schedule, and then nothing changes; otherwise the rows of the new one decide, unless overridden, from the end of any hold |
| DeviceOperations.ExtendRefusals | controller/src/main/java/com/timelord/controller/device/DeviceService.java:220-239 | in a consistent state each of the three refusals before the look ahead comes exactly when its condition holds, in order; refused, nothing changes |
| DeviceOperations.ExtendGrantedExactly | controller/src/main/java/com/timelord/controller/device/DeviceService.java:220-239 | main: in a consistent state, unless an extension already reaches past the next two days, extending is granted if and only if no override is in force and the rows are off at some instant of the next two days that any extension leaves |
| DeviceOperations.ExtendGrantedBeyond | controller/src/main/java/com/timelord/controller/device/DeviceService.java:220-239 | with an extension that reaches past those two days, and gaps with allowed time between them, extending is granted if and only if no override is in force, the extension ends before the next local midnight, and the rows are off all the way from just before the two days end to its end |
| DeviceOperations.ForcedOffReachesAgent | controller/src/main/java/com/timelord/controller/device/DeviceService.java:144-182 | main: after any run of operations ending in a granted forced off, the agent's copy says off exactly from the end of the grace on |
| DeviceOperations.HoldReachesAgent | controller/src/main/java/com/timelord/controller/device/DeviceService.java:144-199 | main: after any run ending in a granted hold, the agent's copy says on until it is over, and then off for good or as the rows say |
| DeviceOperations.HorizonBounds | controller/src/main/java/com/timelord/controller/schedule/ScheduleService.java:144-145 | the horizon is the start of a UTC day more than 27 and at most 28 days ahead |
| DeviceOperations.HandedOut | controller/src/main/java/com/timelord/controller/schedule/ScheduleService.java:135-165 | in a consistent state action and time zone are those of the assigned schedule; without one only a forced off is handed out, as a sleep in UTC; the revision is that of the action and windows; a forced off lasts to the last day of 9999 |
| DeviceOperations.NewDevice | controller/src/main/java/com/timelord/controller/device/DeviceService.java:144-154 | a device nobody has changed is handed no schedule and is never to be off |
| DeviceOperations.DisplayedTimes | controller/src/main/java/com/timelord/controller/device/PowerStatus.java:24-39 | main: in every reachable state the displayed time is when the state ends or began, and from now on the device is off exactly as the displayed state and time say |
| ScheduleCut.MergedAlike | controller/src/main/java/com/timelord/controller/schedule/ScheduleResolver.java:73-126 | merging windows, and dropping those outside the range, changes no gap that is still to end, even if some end before they start |
| ScheduleCut.ScannedSplit | controller/src/main/java/com/timelord/controller/schedule/ScheduleResolver.java:39-56 | the windows of the days a later range no longer scans come first in order and are over by its start; the others are the same |
| ScheduleCut.LaterGapsAhead | controller/src/main/java/com/timelord/controller/schedule/ScheduleResolver.java:57-62 | main: in every lawful zone the gaps of a later range that are still to end are those of the earlier one, cut where the later range starts |
| ScheduleRevision.LaterOff | controller/src/main/java/com/timelord/controller/schedule/ScheduleResolver.java:57-62 | the off windows asked for later are the earlier ones without those that have ended, cut where the later range starts |
| ScheduleRevision.RevisionStaysExactlyWhen | controller/src/main/java/com/timelord/controller/schedule/ScheduleService.java:143-148 | main: within one UTC day, in every lawful zone, the later answer is the earlier one without the windows that have ended, cut at local midnight of the day before; so the revision stays the same if and only if no window has ended and none starts before that midnight, and then the whole answer is the same |
| ScheduleRevision.MidnightChangesRevision | controller/src/main/java/com/timelord/controller/schedule/ScheduleService.java:143-148 | for one Monday row an hour ahead of UTC, asked on a Saturday at 22:30 and 23:30 UTC, the revision changes although no window has ended |
| LegacyScheduleConverter.MarkSpan | controller/src/main/java/com/timelord/controller/schedule/LegacyScheduleConverter.java:89-91 | the loop marks exactly the week-minutes of the span, taken around the week |
| LegacyScheduleConverter.MarkRule | controller/src/main/java/com/timelord/controller/schedule/LegacyScheduleConverter.java:81-92 | marks exactly the minutes of the rule's off intervals, one for each of its days |
| LegacyScheduleConverter.MarkOff | controller/src/main/java/com/timelord/controller/schedule/LegacyScheduleConverter.java:79-93 | a week-minute is marked exactly when some old rule is off at it |
| LegacyScheduleConverter.FindRunStart | controller/src/main/java/com/timelord/controller/schedule/LegacyScheduleConverter.java:96-102 | finds an allowed minute after an off one, or there is none |
| LegacyScheduleConverter.AllDayIfNeverOff | controller/src/main/java/com/timelord/controller/schedule/LegacyScheduleConverter.java:128-135 | without such a start: no rows if everything is off, one row for all week if nothing is |
| LegacyScheduleConverter.RunLength | controller/src/main/java/com/timelord/controller/schedule/LegacyScheduleConverter.java:116-119 | the inner loop measures the whole run, which ends before the scan does, at an off minute |
| LegacyScheduleConverter.RowGroups.Put | controller/src/main/java/com/timelord/controller/schedule/LegacyScheduleConverter.java:155-158 | adds the day to the row with these times, or starts one after all others |
| LegacyScheduleConverter.RowGroups.PutPart | controller/src/main/java/com/timelord/controller/schedule/LegacyScheduleConverter.java:142-151 | putting one day's part of a run keeps every row good and gains exactly the part's minutes |
| LegacyScheduleConverter.RowGroups.AddRuns | controller/src/main/java/com/timelord/controller/schedule/LegacyScheduleConverter.java:138-153 | splitting a run at midnight gains exactly the run's minutes, each once, and terminates |
| LegacyScheduleConverter.CollectRuns | controller/src/main/java/com/timelord/controller/schedule/LegacyScheduleConverter.java:108-125 | the circular scan puts every allowed minute in exactly one row and day and no off minute in any, and terminates |
| LegacyScheduleConverter.ToAllowedRows | controller/src/main/java/com/timelord/controller/schedule/LegacyScheduleConverter.java:78-126 | main: for non-empty rules every allowed week-minute is in exactly one row, no off one is in any, rows have whole-minute times the resolver accepts and are maximal within their day, and no two rows have the same times |
| LegacyScheduleConverter.NoRowMeansNeverAllowed | controller/src/main/java/com/timelord/controller/schedule/LegacyScheduleConverter.java:73-77 | no rows come out exactly when the old rules left no allowed minute |
| ConversionMeaning.DatedIsWeekly | controller/src/main/java/com/timelord/controller/schedule/LegacyScheduleConverter.java:29-31 | on the unbounded timeline a minute is in some rule's dated off interval exactly when its minute of the week is marked, across the end of the week |
| ConversionMeaning.RowWindowIsCover | controller/src/main/java/com/timelord/controller/schedule/ScheduleResolver.java:104-111 | a converted row's window on a date contains an instant exactly when that is its local date and the row covers its week-minute |
| ConversionMeaning.OldRuleMeans | controller/src/main/java/com/timelord/controller/schedule/LegacyScheduleConverter.java:61-68 | a rule whose on time is not after its off time is off until the next date; one that goes off before noon and on later is off within the next date; any other within its own |
| ConversionMeaning.ConversionPreservesMeaning | controller/src/main/java/com/timelord/controller/schedule/LegacyScheduleConverter.java:73-126 | main: for rules that leave some allowed minute, resolving the converted rows is off at an instant exactly when some old rule's dated interval contains its local minute, in every fixed-offset zone and for every range |
| ConversionMeaning.ConversionPreservesExactlyWhen | controller/src/main/java/com/timelord/controller/schedule/LegacyScheduleConverter.java:103-106 | for all rules, meaning is preserved exactly when some minute of the week is allowed; otherwise no rows come out and nothing is off any more |
| ConversionMeaning.SomeMeaningReversed | controller/src/main/java/com/timelord/controller/schedule/LegacyScheduleConverter.java:103-106 | such rules exist: off on every day from midnight to midnight, they say off at every instant, and after conversion nothing is off |
| EventQueue.EventQueue.Enqueue | agent/src/queue.rs:114-135 | a known event id adds nothing, a new event is added (`AddedOnce`); then the capacity is enforced, which drops nothing below 5000 rows (`DroppedOnlyWhenFull`) |
| EventQueue.EventQueue.EnforceMaxSizeWithCap | agent/src/queue.rs:141-160 | drops the rows past the capacity, oldest first, and none below it, as `CappedExactly` and `CapacityRespected` say |
| EventQueue.EventQueue.DueBatch | agent/src/queue.rs:163-237 | the oldest rows due, up to the limit |
| EventQueue.EventQueue.MarkDelivered | agent/src/queue.rs:242-246 | removes the row and no other |
| EventQueue.EventQueue.MarkFailed | agent/src/queue.rs:262-286 | drops the row at its 48th failure, otherwise counts the attempt and puts it off by the backoff |
| EventQueue.CapacityRespected | agent/src/queue.rs:141-160 | at most the capacity is left, rows kept and rows dropped are all the rows there were, and no dropped row is newer than a kept one |
| EventQueue.CappedExactly | agent/src/queue.rs:145-151 | down to the capacity exactly, and not one row below it |
| EventQueue.BackoffIs | agent/src/queue.rs:16-18 | 10, 30, 60, 300 and 900 seconds after the first five failures, 1800 after any other |
| EventQueue.FailedExactly | agent/src/queue.rs:262-286 | the 48th failure drops the row and no other; any other sets its counter and puts it off by exactly the pause for so many failures, and touches no other row |
| EventQueue.DueRowsAreDue | agent/src/queue.rs:163-173 | a batch holds distinct due rows, oldest first and no more than the limit; a due row is left out only if the limit is reached by rows no newer than it |
| EventStore.EventStore.InsertIfAbsent | controller/src/main/java/com/timelord/controller/event/DeviceEventWriter.java:31-53 | a known id is answered as a duplicate and changes nothing; a new one is stored |
| EventStore.EventStore.Submit | controller/src/main/java/com/timelord/controller/event/EventService.java:40-62 | the loop stores the batch and answers item by item, with the three counters equal to the counts of each status |
| EventStore.SubmitStoresAll | controller/src/main/java/com/timelord/controller/event/EventService.java:45-60 | afterwards exactly the old and the submitted ids are stored, none twice, and nothing stored has moved |
| EventStore.ResultsInOrder | controller/src/main/java/com/timelord/controller/event/EventService.java:45-61 | one result per item in request order, a duplicate exactly when the id was stored before or came earlier in the batch, and none rejected |
| EventStore.CountsAddUp | controller/src/main/java/com/timelord/controller/event/EventService.java:46-61 | the three counters add up to the number of items |
| EventStore.CountExact | controller/src/main/java/com/timelord/controller/event/EventService.java:46-61 | each counter is the number of results with its status |
| Delivery.MarkBatch | agent/src/agent.rs:496-535 | the loop over the batch marks row by row: delivered for accepted and duplicate, failed for rejected, all failed if the request failed |
| Delivery.EveryStateSafe | agent/src/agent.rs:470-536 | the invariant of the protocol of queue, link and store, over every run with lost, repeated and late requests, batches stored item by item and interleaved or cut short by a controller stop, lost replies, crashes, and enqueues between fetch and mark |
| Delivery.NoEventLostOrStoredTwice | agent/src/agent.rs:470-536 | main: every enqueued id is in the queue, in the store, dropped by capacity or by its 48th failure; the store holds each id at most once; the queue never exceeds 5000 rows |
| Delivery.DeliveredMeansStored | agent/src/agent.rs:500-507 | main: for a row removed as delivered, an event with its id is stored at the controller |
| DeliveryCapacity.AddedOnce | agent/src/queue.rs:114-132 | before the capacity is enforced, a known id adds nothing and a new event is added last, due at once and without failures |
| DeliveryCapacity.DroppedOnlyWhenFull | agent/src/queue.rs:141-160 | main: over every run an event is dropped for want of room only by an enqueue that found 5000 rows |
| DeliveryCapacity.NothingLostWithRoom | agent/src/agent.rs:470-536 | main: in a run whose queue never holds 5000 rows every enqueued id is in the queue, in the store, or given up after 48 failures |
| DeliveryCapacity.BatchTakesDue | agent/src/agent.rs:471-483 | a batch holds the events of at most 100 due rows, and of every due row if there are fewer than 100 |
| DeliveryCapacity.FetchTakesDue | agent/src/agent.rs:481-487 | such a batch is sent, and only if some row is due |
| DeliveryCapacity.AnswerMarks | agent/src/agent.rs:496-535 | the rows marked are those the answer reaches, by position; one accepted or duplicate is removed and no other; one rejected, or unanswered because the request failed, fails once |
| DeliveredEvents.EveryStateGenuine | agent/src/agent.rs:470-536 | nothing is ever queued, sent or stored that was not enqueued, body and all |
| DeliveredEvents.DeliveredWhole | agent/src/agent.rs:500-507 | main: if no id is enqueued with two bodies, a row removed as delivered is stored with its own body |
| DeliveredEvents.SubmitIsSteps | controller/src/main/java/com/timelord/controller/event/EventService.java:45-61 | storing a batch item by item without interruption is a run of the protocol's steps, with the store and the answers of `Submit` |
| DeliveredEvents.LoopIsSteps | agent/src/agent.rs:496-535 | marking a batch row by row is a run of the protocol's steps that leaves the queue as `MarkBatch` says |
| DeliveredEvents.BatchIsMarked | agent/src/agent.rs:496-535 | from the marks of a reply or of a failed request, those steps end with nothing left to mark and the queue of `MarkBatch` |
| RetryBounds.EveryStateTimed | agent/src/queue.rs:262-286 | with non-decreasing time, failures of a row are spaced by its backoff and no row is due or on its way earlier |
| RetryBounds.TotalBackoffValue | agent/src/queue.rs:18-18 | the sum of the backoffs of any number of failures from the fifth on |
| RetryBounds.GivenUpOnlyAfter76900Seconds | agent/src/queue.rs:262-286 | main: an event given up was tried exactly 48 times, the last at least 76900 seconds after the first; any row still queued has failed fewer, as its counter says |
| UsageTracker.UsageTracker.Apply | agent/src/tracker.rs:150-184 | the new state and the transition, for each of the ten events |
| UsageTracker.UsageTracker.Recompute | agent/src/tracker.rs:207-228 | starts a span when the device comes into use, ends it when it goes out of use, and otherwise changes nothing |
| UsageTracker.UsageTracker.SetVisible | agent/src/tracker.rs:196-201 | only the session's visibility changes |
| UsageTracker.UsageTracker.Close | agent/src/tracker.rs:188-194 | hands over the open span, if any |
| UsageTime.TrackerAgrees | agent/src/tracker.rs:203-228 | after any events a span is open exactly when the device is not suspended and some session was last shown, said on the events alone |
| UsageTime.RecordsInOrder | agent/src/tracker.rs:207-228 | with non-decreasing times, records are ordered and disjoint and the open span starts after them |
| UsageTime.RecordedIsInUse | agent/src/tracker.rs:150-228 | main: for time-ordered events from a new tracker, an instant is in a record or the open span exactly when the device was in use then |
| UsageTime.UsageAddsUp | agent/src/tracker.rs:150-228 | main: for time-ordered events from a new tracker, the lengths of the records and the open span add up to the time the device was in use |
| UsageTime.RecordsAreMaximalRuns | agent/src/tracker.rs:150-228 | main: from a new tracker there is exactly one record for each maximal run of use, in order, with the times of the events that start and end it and the reason of the latter |
| UsageTime.UseStep | agent/src/tracker.rs:150-184 | only a lock, a logoff, a disconnection or a suspend can end use, and only a logon, an unlock, a connection or a resume can start it |
| UsageTime.RunRecord | agent/src/tracker.rs:150-228 | the record of a maximal run has the times of the events that start and end it, and its reason names the kind of the latter |
| UsageResumed.ResumedContinues | agent/src/tracker.rs:132-138 | for time-ordered events a tracker that resumes an open span records what a new one does, but that its first record or open span reaches back to the resumed start, or a record from there to the first event comes first |
| UsageResumed.ResumedIsInUse | agent/src/tracker.rs:132-138 | main: such a tracker records an instant exactly when it is not before the resumed start and the device was in use, the time up to the first event counting as use |
| UsageResumed.FirstEventEnds | agent/src/tracker.rs:150-228 | the first event ends the resumed span unless it shows a session, with the reason it gives, or as a logoff if it gives none |
| UsageRecorder.Store.StartSession | agent/src/store.rs:60-67 | adds an open row |
| UsageRecorder.Store.EndSession | agent/src/store.rs:69-80 | closes the row with the id and changes no other |
| UsageRecorder.Store.InsertClosedSession | agent/src/store.rs:107-119 | adds a closed row |
| UsageRecorder.Store.FindDanglingSession | agent/src/store.rs:86-103 | the open row with the latest start |
| UsageRecorder.UsageRecorder.constructor | agent/src/lib.rs:91-107 | resumes the open row of the store if there is one, and starts idle otherwise |
| UsageRecorder.UsageRecorder.HandleAt | agent/src/lib.rs:145-185 | a repeated logon is ignored, and nothing else is (`RecorderFollowsEvents`); a started span opens a row, an ended one closes the row held, or stores a row of its own if none is held |
| UsageRecorder.UsageRecorder.Shutdown | agent/src/lib.rs:257-265 | closes the span and the row held |
| UsageRecorder.DanglingExact | agent/src/store.rs:86-103 | for any rows, none is found exactly if all have ended; otherwise one that has not, and none such started later |
| UsageRecorder.DanglingIsLast | agent/src/store.rs:86-103 | if only the last row can be open, that is the one found |
| UsageRecorder.StoreAgreesInEveryRun | agent/src/lib.rs:91-185 | main: over every run with clean stops, restarts and kills, also between the tracker's change and the store's statement, the store holds every record that reached it, once and in order, and the open row, if any, is the last one, with the id held and the tracker's start |
| UsageRecorder.AllStoredExactlyWhen | agent/src/lib.rs:167-185 | the store holds all that the tracker ever produced if and only if no kill came between a record and its statement |
| UsageRecorder.CutSpanResumes | agent/src/lib.rs:91-107 | a record cut off that way is not lost time: after the restart its span is open again, with the same start and row |
| UsageRecorder.AtMostOneOpenRow | agent/src/lib.rs:145-185 | at most one row has no end, the tracker is active exactly when an id is held, and the standalone branch is never taken |
| UsageStored.SessionsAreKnown | agent/src/tracker.rs:144-146 | the tracker knows a session exactly when, since the agent started, some event was about it and no logoff of it has come since |
| UsageStored.RecorderFollowsEvents | agent/src/lib.rs:145-185 | main: after any run that has just started the agent, told of one event after another, the recorder tracks and records what these say without the repeated logons, those of a session known by the events alone |
| UsageStored.RowsAreUse | agent/src/lib.rs:91-185 | main: after any run that has just started the agent and then time-ordered events, some row covers an instant exactly when a row closed before does, or the device was in use then by the events without repeated logons, time from an open row's start to the first of them counting as use |
| UsageStored.StoredIsInUse | agent/src/lib.rs:145-185 | main: from an empty store, some row covers an instant exactly when the device was in use then |
| UsageStored.StopClosesOpenRow | agent/src/lib.rs:257-265 | a clean stop ends every row without an end, which is at most one, at its time with its reason, and changes no other |
| UsageStored.StoppedIsInUse | agent/src/lib.rs:145-265 | main: after a clean stop the rows cover exactly the instants in use before it |
| DeviceSessions.SessionsFor | controller/src/main/java/com/timelord/controller/device/DeviceSessionService.java:55-152 | main: for every log, the loop computes one session for each logon or unlock, each ending as `SessionAt` and `SessionExact` say on the log alone: at the first closing event, at last-seen before a new logon or unlock, or at last-seen before a silence over 3 minutes; the two clock readings are apart |
| DeviceSessions.OpeningsExact | controller/src/main/java/com/timelord/controller/device/DeviceSessionService.java:66-77 | the openings are exactly the logons and unlocks, in order |
| DeviceSessions.SessionBounds | controller/src/main/java/com/timelord/controller/device/DeviceSessionService.java:55-152 | on a time-ordered log a session ends no earlier than it starts and no later than any later logon or unlock, and has a reason exactly when it has ended |
| DeviceSessions.SessionsNeverOverlap | controller/src/main/java/com/timelord/controller/device/DeviceSessionService.java:55-152 | main: newest first, the k-th newest session starts at the k-th newest logon or unlock, no two sessions overlap and only the newest can be ongoing |
| DeviceSessions.EndsSomewhere | controller/src/main/java/com/timelord/controller/device/DeviceSessionService.java:120-136 | each opening has exactly one first event after it that is no heartbeat, or a heartbeat more than 180 seconds after the event before it, or else the end of the log |
| DeviceSessions.SessionExact | controller/src/main/java/com/timelord/controller/device/DeviceSessionService.java:39-165 | main: every logon and unlock has a session with its user and start, placed by the number of later ones; it ends at that event if it is a logoff, lock, stop or suspend, with its reason, or else at the event before it as DISAPPEARED; at the end of the log it is ongoing exactly when the device is online and the last event at most 180 seconds old; its length is in whole seconds |
| NotifierEngine.CrossedIs | notifier/src/engine.rs:62-64 | the mark an action stands at, for every number of seconds left, including negative ones |
| NotifierEngine.Engine.Update | notifier/src/engine.rs:48-79 | the loop's new memory and answer; listed twice in one poll an action is warned of once |
| NotifierEngine.TickExact | notifier/src/engine.rs:49-78 | cancelled exactly what was known and is no longer pending, counting down exactly what has a minute or less, polling fast exactly when something has 90 seconds or less |
| NotifierEngine.PollExact | notifier/src/engine.rs:15-18 | counting down exactly with less than 61000 ms left, and the next poll in 2000 ms exactly if something has less than 91000 ms left, else in 10000 |
| NotifierEngine.WarningExact | notifier/src/engine.rs:58-68 | a warning is of a reported action, not warned of at that mark yet, at the tightest of 900, 300, 60 and 30 seconds, with the whole seconds left |
| NotifierEngine.UpcomingExact | agent/src/notify_pipe.rs:20-43 | reported are exactly the starts within the next 1800000 ms of windows of the schedule, under its own action |
| NotifierRuns.PollStep | notifier/src/engine.rs:48-72 | what one poll does for one action, whatever else is listed: whether it warns, and which marks are remembered |
| NotifierRuns.WarningsTighten | notifier/src/engine.rs:48-72 | main: for any polls whose time never goes back, warnings for an action that stays pending are for strictly decreasing thresholds, at most four |
| NotifierRuns.RepeatedOnlyAfterAbsence | notifier/src/engine.rs:49-53 | a threshold is warned of twice only if the action was gone at a poll in between |
| NotifierRuns.EveryMarkWarned | notifier/src/engine.rs:48-79 | with polls at most 30 seconds apart an action first seen with over 900 seconds left has been warned of at exactly the marks passed so far, in order |
| NotifierRuns.FourWarnings | notifier/src/engine.rs:48-79 | main: with every poll no later than the last one asked for, first seen with over 900 seconds left and still pending with 30 or fewer, the warnings are exactly 900, 300, 60, 30 |
| NotifierRuns.ReportedExactly | agent/src/notify_pipe.rs:20-43 | an action is reported exactly when a window of the schedule starts within the next half hour, and always for the same instant |
| NotifierRuns.EveryOffTimeAnnounced | agent/src/notify_pipe.rs:20-43 | main, from schedule to warnings: an off time kept by the cached schedules is warned of exactly four times, however long before it the notifier started |
| Messages.MessageService.Queue | controller/src/main/java/com/timelord/controller/message/MessageService.java:63-80 | an empty or too long text and an expiry outside a minute to a week are refused and change nothing; otherwise a message with the next sequence number and an expiry after now is added |
| Messages.QueuedExactly | controller/src/main/java/com/timelord/controller/message/MessageService.java:63-80 | queued exactly if the text has 1 to 500 characters, the title at most 100 and the expiry, if given, is 1 to 10080 minutes; then as given, to expire after that time, or 4 hours |
| Messages.MessageService.Pending | controller/src/main/java/com/timelord/controller/message/MessageService.java:50-56 | exactly the rows returned and not yet delivered are marked delivered now; no message changes |
| Messages.PendingMembers | controller/src/main/java/com/timelord/controller/message/DeviceMessageRepository.java:12-18 | the answer holds exactly the messages past the cursor that have not expired, in the order of their sequence numbers, none twice |
| Messages.MessageStore.Apply | agent/src/messages.rs:22-32 | the cursor moves to the largest number seen, unknown messages are added, expired ones dropped, and `changed` says exactly whether anything changed |
| Messages.MessageStore.Live | agent/src/messages.rs:35-41 | exactly the unexpired messages |
| Messages.MessageTracker.TakeNew | notifier/src/engine.rs:102-111 | what is shown, and what is remembered afterwards |
| Messages.FreshMembers | notifier/src/engine.rs:103-105 | shown are exactly the reported messages neither expired nor remembered, oldest first, none twice |
| Messages.RememberedExact | notifier/src/engine.rs:102-111 | remembered afterwards are exactly the reported messages that were remembered before or are unexpired; ids no longer reported are forgotten |
| MessageDelivery.AppliedMembers | agent/src/messages.rs:22-32 | after a reply the store holds exactly the unexpired of its own messages and the reply's, each once |
| MessageDelivery.EveryStateGood | agent/src/agent.rs:573-601 | the invariant of the protocol of controller, agent store and notifier, over every run whose trusted time never goes back, with lost replies and restarts of agent and notifier, also between showing a message and saving that it was shown |
| MessageDelivery.ShownInTime | notifier/src/engine.rs:102-111 | main: in every run whose trusted time never goes back a message is shown only before it expires and only if it was queued, and again only in a later poll, if the earlier one was never saved |
| MessageDelivery.ShownOnce | notifier/src/main.rs:66-80 | main: if trusted time never goes back and the notifier is never restarted between a poll and its save, each message is shown at most once |
| MessageDelivery.ShownAgainExactlyWhen | notifier/src/main.rs:66-80 | main: if trusted time never goes back, at a poll an unexpired message of the store is to be shown if and only if no poll that showed it was ever saved |
| MessageDelivery.InterruptedShowsTwice | notifier/src/main.rs:66-80 | a restart between showing and saving does show a message twice, for any message |
| MessageDelivery.NothingSkipped | agent/src/messages.rs:22-32 | main: a message at or behind the cursor is in the agent's store or expired by a clock already read |
| MessageDelivery.EveryFetchedMessageShown | notifier/src/main.rs:66-80 | main: once a poll is saved, every message unexpired in the store at the poll has been shown, and so has every message queued before the last reply received by then, unless it expired |
| Clock.WireParts | agent/src/clock.rs:80-87 | the two halves of a timestamp, as read back from its bytes |
| Clock.FractionRoundTrip | agent/src/clock.rs:82-99 | a millisecond read back from its fraction is itself if a multiple of 125, and one less otherwise |
| Clock.NtpRoundTrip | agent/src/clock.rs:80-99 | main: reading back a written instant gives it if it is a multiple of 125 ms and the millisecond before otherwise exactly when its second is within the window of two half eras (section 3 of RFC 4330), for all instants, negative ones included |
| Clock.TimestampsIdentify | agent/src/clock.rs:80-87 | no two instants within 2^32 seconds have the same timestamp |
| Clock.ServerReplyParsed | agent/src/clock.rs:109-133 | a synchronised server's reply is read as its times, each at most a millisecond early; it is refused only in the one millisecond whose timestamp is all zeros |
| Clock.OtherReplyRefused | agent/src/clock.rs:125-128 | a reply to a request sent at any other millisecond, up to 136 years off, is refused |
| Clock.OffsetError | agent/src/clock.rs:70-77 | an accepted answer of a correct server, over any delays each way, is wrong by at most 1500 ms (section 5 of RFC 4330) |
| Clock.WireOrder | agent/src/clock.rs:82-92 | bytes are weighed from the first to the last |
| Clock.KnownTimestamps | agent/src/clock.rs:80-99 | the start of 1970 is 83 AA 7E 80 and half a second later has the fraction 80, hexadecimal, both ways |
| Clock.RequestIs | agent/src/clock.rs:101-106 | version 4, client mode, no leap warning, nothing else set before the time of sending |
| Clock.OffsetExact | agent/src/clock.rs:70-72 | half the sum of the two differences, cut off toward zero |
| Clock.AcceptedExactly | agent/src/clock.rs:155-172 | main: a synchronised server's answer is accepted if and only if the round trip less its own time is 0 to 3000 ms, and gives half the sum of the differences in the times as read, cut off toward zero |
| Clock.OthersNotAccepted | agent/src/clock.rs:109-133 | no answer is accepted that is short, not from a server, not synchronised, of an unusable stratum, not for this request or without a time of sending |
| Clock.ServerIsCorrect | agent/src/clock.rs:109-133 | a correct server stays correct to within a millisecond when read off the wire |
| Clock.SortInPlace | agent/src/clock.rs:193-193 | the values of the slice, sorted in place |
| Clock.Median | agent/src/clock.rs:189-200 | none for no values; otherwise the middle value, or the mean of the middle two cut off toward zero, as `MedianExact` says of the values in any order |
| Clock.Measure | agent/src/clock.rs:175-187 | the median of the offsets of the servers whose answers were accepted |
| Clock.MedianWithin | agent/src/clock.rs:189-200 | with more than half of the values in a range, the median is in it |
| MedianOrder.NthUnique | agent/src/clock.rs:193-194 | no two values are the k-th smallest |
| MedianOrder.MiddlesExist | agent/src/clock.rs:193-199 | any values, at least one, have a lower and an upper middle one, said by counting how many lie below and above |
| MedianOrder.MedianExact | agent/src/clock.rs:189-200 | main: the median of any values, at least one, is half the sum of the two middle values, cut off toward zero; for an odd number they are one value and it is the median |
| MedianOrder.OddMedian | agent/src/clock.rs:195-196 | of an odd number of values the median is one of them, with fewer than half on either side |
| MedianOrder.MedianNegated | agent/src/clock.rs:197-199 | main: the median of the negated values is the negated median, so clocks ahead and behind are treated alike |
| MedianOrder.OffsetsExact | agent/src/clock.rs:175-187 | each accepted answer contributes its offset, in the order of the servers, and nothing else does |
| Clock.MajorityNeeded | agent/src/clock.rs:189-200 | for any numbers of right and wrong values without a majority of right ones, wrong values exist that put the median off by as much as one likes |
| Clock.ClockErrorBound | agent/src/clock.rs:165-200 | main: if more than half of the accepted answers come from correct servers, the measured offset is within 1500 ms of the true one (plus the millisecond a timestamp may lose), whatever the others answer |
| Clock.MeasuredFromServers | agent/src/clock.rs:109-200 | main, end to end: if more than half of the accepted answers are replies of synchronised servers, over any delays, the offset measured from their bytes is at most 1500 ms above and 1501 ms below the true one |

## Left out

- ConversionMeaning.ConversionPreservesMeaning: does not cover old rules without any allowed minute. They become no rows, which restrict nothing; `ConversionPreservesExactlyWhen` shows that this is the only case.
- ScheduleRevision.RevisionStaysExactlyWhen: the revision is the action and the windows themselves, so the hash of their text is taken to be injective. The comment that it does not change just because time passed (ScheduleService.java:144) is false: a window that ends changes it, and so does local midnight, as `MidnightChangesRevision` shows; the lemma says exactly when it stays.
- DeviceProperties.CachedCopyStaysRight: assumes that nobody edits the schedule meanwhile, that the clock is read in order, and zones that satisfy `Zone.Lawful`. A zone that skips a date or sets its clocks back across midnight does not.
- DeviceService.Device.Extend: the range check on the minutes is in the HTTP layer and is not modelled; the results hold for any number.
- DeviceOperations.ExtendGrantedBeyond: only for gaps with allowed time between them; where the clocks change inside a window, two gaps may touch, and then the extension can be refused although nothing is allowed in between.
- EventQueue.EventQueue.DueBatch: rows created at the same instant are taken in the order of insertion, where the database may choose any.
- EventStore.EventStore.Submit: the device is assumed to exist, and an item is checked and inserted in one step. An insert that loses a race is answered as a duplicate (DeviceEventWriter.java:50), as it is here when it comes second; so nothing is ever rejected by the modelled controller, while the agent's handling of a rejection is modelled.
- Delivery.NoEventLostOrStoredTwice: an event body is a string, and each statement on the queue and each insert of one item succeeds and is atomic; a crash of the agent or a stop of the controller can come between any two.
- RetryBounds.GivenUpOnlyAfter76900Seconds: an attempt that a crash interrupts before the row is marked is not counted, by the program or here.
- UsageRecorder.UsageRecorder.HandleAt: user names, the snapshot for heartbeats and the mirroring into the event queue are left out, and the store's writes succeed; a kill can come before or after each.
- UsageStored.RowsAreUse: a span cut short by a kill counts as use up to the first event after the restart, as it does in the program.
- UsageRecorder.UsageRecorder.constructor: follows the code, which resumes an open row; the remark that such a row is closed as AGENT_RESTART (lib.rs:254-256) does not describe it.
- DeviceSessions.SessionsFor: an absent user name is the empty string, and events with equal times come in the order given.
- NotifierEngine.Engine.Update: cancelled ids are a set, where the program sorts them, and an action's id is its kind and time, so the hash is taken to be injective.
- NotifierRuns.EveryOffTimeAnnounced: assumes that the agent answers every poll and has the schedule at hand; polls may be up to 30 seconds apart, which leaves 20 for the work between polls.
- Messages.MessageService.Queue: the text is taken as already stripped, and a blank title is the empty string. Sequence numbers are assigned in the order of commits.
- MessageDelivery.ShownInTime: trusted time is assumed never to go back. Set back past a message's expiry, the clock can have it shown twice: left out of a poll's report once expired it is forgotten, and may then be reported again. A message is judged, and counts as shown, by the time of the poll that reported it; one notifier is modelled, with its own memory and file; files are saved successfully.
- Clock.MeasuredFromServers: a server is correct if its clock is right; how far the local clock drifts during an exchange is not modelled, and neither is 64-bit overflow.
- Clock.SortInPlace: the library's unstable sort is modelled as an insertion sort, which gives the same result on integers.
- HTTP, UDP, the named pipe, SQLite, JPA and JSON: only the state they carry is modelled.
- Old overrides (`overrideWindows`, `onDayShift`) and the rest of the database migrations.
- Editing of schedules (`create`, `update`, `addOverride`), registration, heartbeats, commands, device deletion, dashboards and user accounts.
- Prompt waking of long polls: the check and the wait are not one step, so nothing is claimed about it.
- When enforcement may begin after a start (`enforcement_ready`), and controller discovery.
- The stored offset itself (`TrustedClock`): two fields, set and read.
