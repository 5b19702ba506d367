# RFID LLRP inventory: a verified model

This project models the decision-making core of the RFID LLRP inventory service and proves what it
promises. `dafny verify dfyconfig.toml` checks all of it (Dafny 4.11).

The service turns the tag reads that RFID readers report into a live inventory and a stream of
`Arrived`, `Moved` and `Departed` events, survives restarts through a snapshot file, and keeps a group of
readers working to one common behaviour. The model follows these four parts.

**The tag inventory.** `Inventory.dfy` says, on plain values, what one read, one visit of a sweep or one
change of configuration does to the inventory and which event it raises; any run is a sequence of such
operations (`Actions.dfy` shows that reports, sweeps in any map-iteration order, and configuration changes
are such sequences). `CircularBuffer.dfy`, `Tag.dfy` and `TagProcessor.dfy` are the mutable objects (ring
buffers, statistics, tags, the processor with its map of tags), each method proved against those values.
The laws over whole runs are in `EventLog.dfy` (the grammar of the event stream), `Replay.dfy` (the log
alone tells where the tags are), `TagHistory.dfy` (clocks and RSSI windows), `Movement.dfy` (hysteresis, and
the certainty of moving on), `Clocks.dfy` (origin adjustment) and `Sweeps.dfy`. `ReadLaw.dfy` says what one read
does in terms of the parameters the report carries, and `SettingsLaw.dfy` what each setting makes the
inventory do.

**The task loop.** `TaskLoop.dfy` is a transition system over the live inventory, the cached snapshot, the
file, the event channel and its consumer, cut at every point where a crash can fall; `Delivery.dfy` is about
which events reach the subscribers and what they can make of them, `Snapshots.dfy` about saving and
restoring; `LoopReplay.dfy`, `LoopMovement.dfy` and `LoopClocks.dfy` carry the log's, the movement and the
clock laws across restarts; and `InventoryApp.dfy` is the loop itself, an object whose history is proved to be
a run of the transition system.

**The device logic.** `ReportFill.dfy` undoes LLRP's compression of tag reports (section 13.2.3 of LLRP 1.0.1),
first as a meaning and then as an in-place method over parameter pointers; `ReportFeed.dfy` shows that the
inventory never notices the compression, however the readers' reports are interleaved. `Devices.dfy` chooses
transmit power, frequency and RF mode.

**The reader group.** `ReaderGroup.dfy` has the group object and the concurrent replacement of ROSpecs as a
transition system under every interleaving and failure pattern; `ConcurrentGroup.dfy` has the group and its
devices under concurrent additions and changes, command by command.

Some behaviour of the code that the proofs bring out:

- A tag that arrives without a location is published at the alias of the empty location, and its first real
  location is never published. The log keeps track of the tags if and only if no operation does this or
  changes the alias of a present tag (`Replays.FaithfulIffNothingBreaks`, with the concrete loss in
  `Replays.UnlocatedArrivalIsLost`).
- Giving a location with a present tag a new alias loses track of it in the same way (`Replays.RenamingIsLost`).
- Events are processed, persisted, sent and published in this order, and a crash loses all that is on the way:
  what has not been persisted vanishes together with its effect on the inventory
  (`Deliveries.PersistedIffNothingVanishes`, with a run in `Deliveries.CrashBeforePersisting`), and what has
  not been published is lost although its effect is on file (`Deliveries.FatesOverRuns`, with a run in
  `Deliveries.CrashLosesArrival`). A publication that fails drops its batch. Only these lose events
  (`Deliveries.PublishedIffNothingLost`). What is published of a tag keeps the grammar of its events if and only
  if no batch about it was published after an odd number of its persisted arrivals and departures had been lost
  or dropped (`Deliveries.PublishedStreamIff`).
- Nothing in the code ever sets the `report` field that selects the parameters to fill in, so as it stands
  `fillAmbiguousNil` fills nothing and remembers nothing (`ReportFill.NothingExpectedNothingFilled`). The
  theorems about filling hold for every selector, and say exactly when it restores the reports
  (`ReportFill.FillRestoresIff`).
- `AddReader` validates under one lock, inserts under another and sends its commands under none. A change of
  behaviour in between can leave a member that refuses the group's behaviour
  (`ConcurrentGroups.ChangeDuringAddBreaksAgreement`), or one that accepts it but goes on with the ROSpec of the
  old one (`ConcurrentGroups.ChangeDuringAddLeavesOldROSpec`). A member that connects again during a change can
  end up with two ROSpecs without anything having failed (`ConcurrentGroups.ReconnectionAroundChangeLeavesTwo`;
  both have the same ID, and a device may refuse the second), or with none although the change has no error to report (`ConcurrentGroups.ReconnectionBehindChangeLeavesNone`).
  All members whose last replacement has not been reported as failed have exactly the ROSpec of the group's
  behaviour if and only if no step misconfigures one (`ConcurrentGroups.ConfiguredIffNeverMisconfigures`); if members are not added again during changes, if and only
  if every reader that is inserted would still make the ROSpec it was sent
  (`ConcurrentGroups.ConfiguredIffNeverOutdated`).
- The frequency-table guards mean to exclude lengths beyond 16 bits but let exactly 65536 entries through:
  the count then wraps to 0 and the last entry's 1-based channel to 0 (`Devices.LastOfFullTable`). The model
  wraps as the code does.
- Choosing an RF mode on an Impinj reader panics exactly when all its reported modes have IDs from 1000 on
  (`Devices.ImpinjBestMode`, with a table in `Devices.OnlyMadeUpModes`).
- The age-out sweep rounds its time limit down and the departure sweep truncates it toward zero; the model
  keeps the difference.
- The RF mode score divides by the forward link's RTcal and takes the lowest score, so it rewards a slower
  forward link. That is against the promise of the highest likely throughput, and a mode
  that is no worse on either link loses exactly when its lead in data rate weighs less than the other's slower
  forward link (`Devices.FasterModeLosesIff`, with an example in `Devices.BestForwardLinkLoses`).
  The model keeps the code's score.
- In fixed-frequency regions the transmit power index stays 0 although a power was looked up
  (`Devices.FixedChannel`).

## Model

| member | source | states |
|---|---|---|
| Locations.StringInjective | internal/inventory/location.go:38-40 | Two locations print alike only if they are the same, even with underscores and digits in device names; so the string keys act as locations. |
| Locations.PrintedName | internal/inventory/location.go:38-40 | The printed name is the device name, an underscore and the antenna in decimal without leading zeros. |
| CircularBuffers.CircularBuffer.constructor | internal/inventory/circularbuffer.go:24-32 | A new buffer of a positive window size is empty. |
| CircularBuffers.CircularBuffer.Len | internal/inventory/circularbuffer.go:35-40 | The number of values in the window. |
| CircularBuffers.CircularBuffer.AddValue | internal/inventory/circularbuffer.go:55-75 | The window in age order slides by one value, whatever the rotation of the array; the running total stays the sum of the window. |
| CircularBuffers.CircularBuffer.Mean | internal/inventory/circularbuffer.go:46-51 | The running total over the length is the true mean of the window; missing only for an empty buffer. |
| CircularBuffers.WindowIsLastN | internal/inventory/circularbuffer.go:55-75 | After any sequence of additions the window is exactly the latest values, in order. |
| CircularBuffers.MeanTimesLength | internal/inventory/circularbuffer.go:46-51 | The mean times the number of values is their sum. |
| CircularBuffers.MeanBetween | internal/inventory/circularbuffer.go:46-51 | The mean lies between any bounds on the values. |
| MobilityProfiles.FullThresholdDuringHoldoff | internal/inventory/mobilityprofile.go:22-43 | With a falling line the offset is the full threshold for exactly the holdoff time, and less afterwards. |
| MobilityProfiles.OffsetFromSettings | internal/inventory/mobilityprofile.go:22-43 | The offset is the threshold plus the slope for each millisecond beyond the holdoff time, and at most the threshold. |
| MobilityProfiles.LineFallsBelow | internal/inventory/mobilityprofile.go:34-43 | A falling line gets below any bound after a computable time. |
| TagReports.ExtractedRSSIRange | internal/llrp/util.go:36-48 | Whatever the report carries, an extracted RSSI lies in [-327.68, 327.67]. |
| TagReports.ExtractedRSSI | internal/llrp/util.go:36-48 | The first Impinj peak RSSI parameter counts, as a big-endian two's complement number of hundredths of a dBm. |
| TagReports.StandardRSSI | internal/llrp/util.go:36-48 | Without one, the standard parameter counts, in dBm, if there is any. |
| TagReports.WordsToHex | internal/llrp/util.go:16-29 | The four-characters-a-word loop prints the words' big-endian bytes in hexadecimal. |
| TagReports.HexDenotes | internal/inventory/tagprocessor.go:152-157 | Bytes are printed with two lower-case hexadecimal digits each, in order. |
| TagReports.BigEndianDenotes | internal/llrp/util.go:16-29 | Words give two bytes each, the greater part first. |
| TagReports.HexInjective | internal/inventory/tagprocessor.go:152-157 | Different bytes never print alike. |
| ReadLaws.ReadConcernsOneTag | internal/inventory/tagprocessor.go:151-163 | A read is about the tag named by its 96-bit EPC, or by the other EPC if that is empty: it is present afterwards, all events are about it, and no other tag changes. |
| ReadLaws.SameTagIffSameBytes | internal/inventory/tagprocessor.go:151-163 | Two reads are about one tag if and only if those bytes are the same. |
| ReadLaws.ReadStamps | internal/inventory/tagprocessor.go:212-239 | A timed read gives the tag, and the location of its antenna, the later of the known time and its own, and stamps no other location. |
| ReadLaws.LastReadIsGreatest | internal/inventory/tagprocessor.go:212-239 | Over every run, a tag's last read is the greatest time read for it since it was stored anew, and a location's the greatest read there since the tag last departed. |
| ReadLaws.ReadRecords | internal/inventory/tagprocessor.go:230-235 | A read records its RSSI at the location of its antenna among the latest 20 values, and nowhere else. |
| ReadLaws.ReadPlaces | internal/inventory/tagprocessor.go:224-275 | Where the tag is after a read, in all cases. |
| ReadLaws.ReadTeaches | internal/inventory/tagprocessor.go:174-210 | The TID is that of a successful memory read; an arrival is dated by the last read. |
| ReadLaws.ReadAnnounces | internal/inventory/tagprocessor.go:169-203 | An arrival exactly if the tag was not present; a move exactly if it was somewhere and the names of the two places differ; places are called by an alias that is not blank, or else by their printed names. |
| ReadLaws.DepartureAnnounces | internal/inventory/tagprocessor.go:337-349 | A departure calls its place in the same way. |
| ReadLaws.MovesAreTold | internal/inventory/tagprocessor.go:184-202 | Without aliases a present tag that is somewhere raises a move exactly if its location changes, between the printed names, even between antennas of one device. |
| Inventory.NewestSeen | internal/inventory/tagprocessor.go:85-91 | The newest last-seen time is an upper bound on all of them and, unless 0, one of them. |
| TagProcessors.NewestSeenIn | internal/inventory/tagprocessor.go:85-91 | The loop finds that newest time. |
| Tags.TagStats.UpdateRSSI | internal/inventory/tagstats.go:25-27 | One value is recorded and the time is left alone. |
| Tags.TagStats.UpdateLastRead | internal/inventory/tagstats.go:29-35 | The time only ever advances. |
| Tags.Tag.constructor | internal/inventory/tag.go:56-62 | A new tag is Unknown, nowhere, and has no statistics. |
| Tags.Tag.SetStateAt | internal/inventory/tag.go:68-78 | The transition time goes with the state: arrival for Present, departure for Departed. |
| Tags.Tag.SetState | internal/inventory/tag.go:64-66 | As SetStateAt, at the time of the last read. |
| Tags.Tag.ResetStats | internal/inventory/tag.go:80-85 | All statistics are forgotten and nothing else. |
| Tags.Tag.GetStats | internal/inventory/tag.go:87-97 | The statistics of a location, created empty when missing; all other locations untouched and unshared. |
| Tags.Tag.RecordRead | internal/inventory/tagprocessor.go:230-239 | A read changes the statistics of its own location only. |
| Tags.Tag.ShouldMove | internal/inventory/tagprocessor.go:246-273 | When the read location wins over the present one; no mean of an empty buffer is ever taken. |
| Tags.Tag.ApplyRead | internal/inventory/tagprocessor.go:208-275 | The in-place processing of one read, with all its early exits, computes the value-level step. |
| Tags.Tag.Restored | internal/inventory/statictag.go:47-69 | A tag rebuilt from its snapshot holds one value, the saved mean, for each saved location. |
| Tags.Tag.SnapshotStats | internal/inventory/tagprocessor.go:130-142 | The saved statistics list exactly the locations with values, with their means. |
| TagProcessors.TagProcessor.constructor | internal/inventory/tagprocessor.go:36-48 | The processor starts with the restored tags, keyed by EPC, each with objects of its own. |
| TagProcessors.TagProcessor.UpdateConfig | internal/inventory/tagprocessor.go:57-70 | Only the configuration changes; the blank alias is dropped. |
| TagProcessors.TagProcessor.Announce | internal/inventory/tagprocessor.go:169-203 | The deferred block: the new state and the event that the change calls for. |
| TagProcessors.TagProcessor.ProcessData | internal/inventory/tagprocessor.go:151-276 | One tag report steps the inventory as a read does and returns that step's event. |
| TagProcessors.TagProcessor.ProcessReport | internal/inventory/tagprocessor.go:75-104 | A report is the run of its reads under one adjusted clock; the snapshot is of the resulting inventory. |
| TagProcessors.TagProcessor.Snapshot | internal/inventory/tagprocessor.go:118-147 | Every tag is listed exactly once with its present alias, in whatever order. |
| TagProcessors.TagProcessor.AggregateDeparted | internal/inventory/tagprocessor.go:330-363 | A departure sweep visits every tag once in some order; a snapshot comes with events and only then. |
| TagProcessors.TagProcessor.AgeOut | internal/inventory/tagprocessor.go:305-326 | An age-out sweep visits every tag once; the count is the number removed; a snapshot comes only with removals. |
| EventLog.FollowDecidesLanguage | internal/inventory/event.go:16-20 | The three-state automaton accepts exactly the prefixes of (Arrived Moved* Departed)*. |
| EventLog.EventsFollowPresence | internal/inventory/tagprocessor.go:151-203 | Over every run from any inventory, a tag's events lead from its presence at the start to its presence at the end. |
| EventLog.RunBalance | internal/inventory/tagprocessor.go:151-203 | Over every run, arrivals minus departures is the change in the number of present tags. |
| EventLog.EventStream | internal/inventory/tagprocessor.go:75-363 | From an empty inventory, for all reports, sweeps and configurations: each tag's events are a prefix of (Arrived Moved* Departed)*, it is present exactly when its last event is no departure, and arrivals minus departures count the present tags. |
| Replays.StepReplays | internal/inventory/tagprocessor.go:169-203 | One operation keeps the replayed log in step with the present tags' places if and only if it is not a silent first location or a re-aliasing. |
| Replays.FaithfulIffNothingBreaks | internal/inventory/tagprocessor.go:184-191 | The log replays to the right places throughout a run if and only if no such operation occurs in it. |
| Replays.LogTellsWhere | internal/inventory/tagprocessor.go:225-276 | If every read locates its tag and aliases stay, the log is right at every point of the run. |
| Replays.WhereaboutsFromLog | internal/inventory/tagprocessor.go:169-203 | With named devices, antennas on all reads and fixed aliases, replaying the events of any run gives each present tag's alias; every old location is the last published one and no move has equal ends. |
| Replays.UnlocatedArrivalIsLost | internal/inventory/tagprocessor.go:184-186 | A concrete run in which a tag arrives without antenna: the log is right after its arrival, and wrong once it has a location. |
| Replays.RenamingIsLost | internal/inventory/tagprocessor.go:57-70 | A concrete run in which a present tag's location is renamed: the log is right before and wrong after. |
| TagHistories.StepKeepsWell | internal/inventory/tagprocessor.go:212-239 | One operation keeps every tag's clocks in order and never turns a last read back. |
| TagHistories.ClocksOverRuns | internal/inventory/tagprocessor.go:330-356 | Over every run: no stored tag is Unknown, last arrival and every per-location read are no later than the last read, a departed tag was last read before its departure and has no statistics, and a tag that stays stored never loses its last read. |
| TagHistories.EventsReportTheTag | internal/inventory/tagprocessor.go:174-199 | Each event carries its tag's resulting data: TID, alias, and the times of last read, arrival or departure. |
| TagHistories.WindowIsWhatWasHeard | internal/inventory/tagprocessor.go:230-239 | Over every run, a tag's window at a location is exactly the last 20 values heard there since its last departure: no two locations share a history. |
| Movement.MovesExactlyWhen | internal/inventory/tagprocessor.go:241-273 | A read at another location moves the tag exactly when the run's values heard here and there say so. |
| Movement.RunKeepsBand | internal/inventory/tagprocessor.go:230-239 | Over every run, bounds on the values read for a tag bound its windows at all locations, and clocks stay in order. |
| Movement.HoldsDuringHoldoff | internal/inventory/tagprocessor.go:246-273 | After any run whose values for the tag span at most the configured threshold, from any start that does, a read cannot take the tag from a location with a history read within the holdoff. |
| Movement.LetsGoWhenStale | internal/inventory/tagprocessor.go:254-273 | Once the line is below the width of the RSSI range, any read elsewhere with two values moves the tag. |
| Clocks.AdjustedStamps | internal/inventory/tagprocessor.go:76-96 | Under origin adjustment the newest read is stamped exactly with the reference time, every other no later and in order, within 64 bits. |
| Clocks.NothingFromTheFuture | internal/inventory/tagprocessor.go:215-239 | Over every run with adjustment on and origins that do not go back, nothing remembered is later than the latest reference time, from any start that knows nothing later. |
| Clocks.ElapsedNeverNegative | internal/inventory/tagprocessor.go:262 | So the elapsed time the profile is asked about is never negative, at any read of any further report. |
| Sweeps.OverdueMeans | internal/inventory/tagprocessor.go:332-337 | Despite truncation, a tag departs exactly when it is present and its silence in whole milliseconds exceeds the threshold, and the departure records that silence. |
| Sweeps.ExpiredMeans | internal/inventory/tagprocessor.go:306-312 | A tag ages out exactly when it is departed and was last read longer ago than the age limit. |
| SettingsLaws.SettingsDepart | internal/inventory/tagprocessor.go:57-70 | Under a configuration, a departure visit departs a present tag exactly if its silence exceeds the configured seconds; it stamps it with the time of the sweep, forgets its statistics, and changes nothing else. |
| SettingsLaws.SettingsAgeOut | internal/inventory/tagprocessor.go:57-70 | An age-out visit removes a departed tag exactly if it was last read more than the configured hours ago. |
| SettingsLaws.SettingsAdjust | internal/inventory/tagprocessor.go:75-104 | A report is read in order, its clock shifted onto the origin exactly if the configuration says so and there is a time. |
| SettingsLaws.SettingsMove | internal/inventory/tagprocessor.go:57-70 | The offset that decides on moves follows from the configured slope, threshold and holdoff time. |
| SettingsLaws.SettingsName | internal/inventory/tagprocessor.go:57-70 | The configured aliases hold, but for one of the blank name. |
| Sweeps.AggregateDepartedExactly | internal/inventory/tagprocessor.go:330-363 | In any order: exactly the overdue present tags depart, one event each, the rest untouched, and sweeping again does nothing. |
| Sweeps.AgeOutExactly | internal/inventory/tagprocessor.go:305-326 | In any order: exactly the expired departed tags go, the rest untouched, no event, and sweeping again removes nothing. |
| Sweeps.OnlyAnnouncedDeparturesAgeOut | internal/inventory/tagprocessor.go:311-317 | A tag is removed only if the last event published about it is its departure. |
| Snapshots.RestoreRoundTrip | internal/inventory/statictag.go:47-69 | Restoring and taking a snapshot again gives the same tags, states, times, locations, last reads and means. |
| Snapshots.SnapshotShows | internal/inventory/tagprocessor.go:118-147 | Every field of a snapshot entry is the tag's, its alias that of its location, its statistics those of the locations with values; and restoring gives them back. |
| Snapshots.RestoredKeptInBand | internal/inventory/statictag.go:47-69 | A restored inventory keeps its clocks in order and each restored window within any bounds on the saved one. |
| Snapshots.RestoreIgnoresOrder | internal/inventory/tagprocessor.go:43-45 | The order of a snapshot makes no difference to what is restored. |
| TaskLoops.StepKeepsInvariant | internal/inventory/app/controller.go:201-281 | Every step, including a crash at any stage and the restart, keeps cache, file, waiting events and log in agreement with the live inventory. |
| TaskLoops.LoopSafety | internal/inventory/app/controller.go:161-282 | Over every run with crashes: the cache mirrors the inventory; when waiting, the file has its tags and states; the persisted events of all lives keep the grammar, so no arrival is repeated for a present tag. |
| TaskLoops.HistoryGrows | internal/inventory/app/controller.go:189-199 | Sending, taking, publishing, failing and crashing move batches along; none leaves the history or overtakes another. |
| Deliveries.FatesOverRuns | internal/inventory/app/controller.go:189-230 | Over every run, some persisted batch is lost if and only if some crash found one that was not published; some batch is dropped if and only if some publication failed. |
| Deliveries.PublishedUnlessSomethingFails | internal/inventory/app/controller.go:189-230 | If neither happens, what was persisted has been published in that order, but for what is on its way; after a clean stop, all of it. |
| Deliveries.NothingPendingOnceStopped | internal/inventory/app/controller.go:204-210 | The loop is gone only once the channel is empty and the consumer idle. |
| Deliveries.ChannelIsBounded | internal/inventory/app/controller.go:165 | The channel never holds more than a hundred batches. |
| Deliveries.PersistedIffNothingVanishes | internal/inventory/app/controller.go:223-241 | Over every run, all events that the inventory raised are persisted, or about to be, if and only if no crash came between processing and persisting. |
| Deliveries.PublishedIffNothingLost | internal/inventory/app/controller.go:189-241 | Over every run, all events ever raised have been published in that order, but for what is on its way, if and only if no crash found events on their way and no publication failed. |
| Deliveries.CrashBeforePersisting | internal/inventory/app/controller.go:223-228 | A concrete run in which a tag's arrival is raised and a crash leaves no trace of it, in events or inventory. |
| Deliveries.SubscriberKeepsUp | internal/inventory/event.go:16-20 | A subscriber that sees only the published events keeps up with a tag exactly as long as it misses its arrivals and departures in even numbers, and is then right about its presence exactly when it missed an even number. |
| Deliveries.PublishedStreamIff | internal/inventory/app/controller.go:189-230 | Over every run, with crashes and failing publications, the published events of a tag keep the grammar if and only if none came after an odd number of missed arrivals and departures. |
| Deliveries.CrashLosesArrival | internal/inventory/app/controller.go:227-230 | A concrete run in which a crash loses an arrival and a subscriber sees only the departure. |
| TaskLoops.AliasesStayFresh | internal/inventory/app/controller.go:223-248 | From a refresh on, the cached snapshot is exact, aliases included, until the aliases change or the loop restarts. |
| LoopReplays.LogSurvivesRestarts | internal/inventory/app/controller.go:172-241 | Across all crashes and restarts, the persisted events replay to the present tags' places, although silent moves are never persisted. |
| LoopClocks.LoopNeverAhead | internal/inventory/app/controller.go:172-248 | Across all crashes and restarts with adjustment on and origins in order, nothing in the inventory or the file is later than the latest reference time. |
| LoopClocks.ElapsedNeverNegativeInLoop | internal/inventory/tagprocessor.go:262 | So in any life of the loop the elapsed time is never negative, at any read of any report. |
| LoopMovement.LoopKeepsBand | internal/inventory/app/controller.go:172-248 | Across all crashes and restarts, even from a stale file, bounds on a tag's reported values bound everything remembered of it. |
| LoopMovement.LoopKeepsTagsWell | internal/inventory/app/controller.go:172-248 | At any point in any life of the loop no stored tag is Unknown, clocks are in order, and remembered values are in the protocol's range. |
| LoopMovement.HoldsAcrossRestarts | internal/inventory/tagprocessor.go:246-273 | The hysteresis of HoldsDuringHoldoff in any life of the loop. |
| LoopMovement.LetsGoAcrossRestarts | internal/inventory/tagprocessor.go:254-273 | The certainty of moving on of LetsGoWhenStale in any life of the loop. |
| InventoryApps.InventoryApp.HandleReport | internal/inventory/app/controller.go:212-230 | The reader's omissions are filled in first; the cache is refreshed by every report; file and channel change exactly when there are events, which come last on the channel. |
| InventoryApps.InventoryApp.ReaderJoins | internal/inventory/app/controller.go:120-127 | Only the reader's own last values start afresh. |
| InventoryApps.InventoryApp.ReaderLeaves | internal/inventory/app/controller.go:129-131 | Only that reader leaves the group. |
| InventoryApps.InventoryApp.HandleDepartedTick | internal/inventory/app/controller.go:232-241 | One iteration of the transition system: sweep, then persist and send if anything departed; otherwise cache, file and channel stay. |
| InventoryApps.InventoryApp.HandleAgeOutTick | internal/inventory/app/controller.go:243-248 | One iteration: sweep, then persist without sending exactly if anything was removed. |
| InventoryApps.InventoryApp.HandleConfig | internal/inventory/app/controller.go:250-272 | A configuration with a zero threshold, check interval or age limit changes nothing; any other reaches the processor; file and cache stay. |
| InventoryApps.InventoryApp.PersistAndSend | internal/inventory/app/controller.go:227-230 | The events are sent after their effect is on file, and last on the channel; while it is full the loop waits for the consumer, and no batch is lost. |
| InventoryApps.InventoryApp.Consume | internal/inventory/app/controller.go:189-199 | The consumer takes the oldest batch and publishes it, or drops it if that fails. |
| InventoryApps.InventoryApp.Stop | internal/inventory/app/controller.go:204-210 | The channel is closed, the cached snapshot persisted once more, and the loop is gone once the consumer has emptied the channel. |
| InventoryApps.InventoryApp.Boot | internal/inventory/app/controller.go:172-186 | After a stop or a crash at any stage the loop resumes from what the file holds, and what was on its way to the subscribers is lost. |
| InventoryApps.InventoryApp.Safe | internal/inventory/app/controller.go:201-281 | At any time in its life the loop object has the guarantees of LoopSafety, LoopKeepsTagsWell and PublishedStreamIff. |
| ReportFill.FillRestores | internal/llrp/behavior.go:366-378 | For any selector, filling undoes any omission of enabled parameters equal to the last value of their kind. |
| ReportFill.FillRestoresIff | internal/llrp/behavior.go:366-378 | Filling restores the original reports if and only if what was left out are enabled parameters equal to the last value of their kind. |
| ReportFill.LatestIsRemembered | internal/llrp/behavior.go:388-395 | What is remembered of an enabled parameter is the value it was last sent with. |
| ReportFill.BatchesDoNotMatter | internal/llrp/behavior.go:385-469 | Filling batch by batch gives the original reports wherever the stream is cut. |
| ReportFill.FillLeavesAlone | internal/llrp/behavior.go:385-469 | Disabled parameters and sent values are left alone, every report comes out complete, and later reports do not matter to earlier ones. |
| ReportFill.FillIdempotent | internal/llrp/behavior.go:385-469 | Filling a filled batch again changes nothing, whatever was heard in between. |
| ReportFill.NothingExpectedNothingFilled | internal/llrp/behavior.go:385-469 | With no parameter enabled, filling leaves every report and every last value as it is. |
| ReportFill.Decompressor.constructor | internal/llrp/behavior.go:231-251 | No parameter is enabled, and all nine last values start at 0, each in a cell of its own. |
| ReportFill.Decompressor.FillField | internal/llrp/behavior.go:388-395 | One parameter is filled or remembered, and never shares its cell with the remembered value. |
| ReportFill.Decompressor.FillAmbiguousNil | internal/llrp/behavior.go:385-469 | The in-place pass over a batch yields the meaning of the compressed reports and the new last values, with no aliasing between them. |
| ReportFeeds.FilledAsMeant | internal/llrp/reader_group.go:85-102 | A report that a member of the group compressed is filled to what it meant, and the member's last values are as if it had not been compressed. |
| ReportFeeds.ReportIsRemembered | internal/llrp/behavior.go:388-395 | A member's last values are those it last sent, and a report says nothing about other members. |
| ReportFeeds.CompressionIsInvisible | internal/inventory/app/controller.go:212-222 | However the reports of the group's readers are compressed and interleaved, the processor sees the original ones. |
| Devices.CopySorted | internal/llrp/behavior.go:203-229 | The power table is a sorted permutation of the reported one, and the same table if that was sorted. |
| Devices.NewBasicDevice | internal/llrp/behavior.go:142-252 | A device is built exactly when no capability is missing and the frequency table is not too long; it has the reported modes, ports and frequencies and a sorted power table. |
| Devices.Search | internal/llrp/behavior.go:520-522 | Binary search finds the first entry that reaches the target. |
| Devices.FindPower | internal/llrp/behavior.go:516-541 | Index and value are those of the best match. |
| Devices.BestPower | internal/llrp/behavior.go:504-511 | The best match is the greatest supported power not above the target, or else the least one. |
| Devices.TransmitIffPossible | internal/llrp/behavior.go:472-502 | A transmitter is returned exactly when some supported power is low enough and, if not hopping, some permitted frequency is in the table; the error tells which is missing. |
| Devices.HoppingPower | internal/llrp/behavior.go:483-488 | When hopping, the first hop table is used and the index names the greatest power not above the target. |
| Devices.FixedChannel | internal/llrp/behavior.go:491-498 | Otherwise the channel is the 1-based position of the first permitted frequency in the table, except that the 65536th wraps to 0; and the power index is 0. |
| Devices.LastOfFullTable | internal/llrp/behavior.go:178-193 | A concrete device with 65536 frequencies that is told to use channel 0. |
| Devices.FastestAt | internal/llrp/behavior.go:608-644 | The first mode of least score at or above the mask, if there is any. |
| Devices.MaskForDensity | internal/llrp/behavior.go:550-565 | The required mask: 0 for unknown, 1 for one reader, and for more 3 if they are more than half as many as frequencies, else 2. |
| Devices.DenserNeedsMore | internal/llrp/behavior.go:550-565 | More readers never lower the requirement. |
| Devices.FindBestMode | internal/llrp/behavior.go:550-586 | Terminates; panics exactly on an empty table; otherwise the first mode of least score whose mask is at least that number, or the highest there is. |
| Devices.HigherMaskNeverBetter | internal/llrp/behavior.go:588-607 | Raising the required mask never improves the score, and the best mode is unique. |
| Devices.HigherRateWins | internal/llrp/behavior.go:634-637 | With equal forward links, the mode that scores better is exactly the one of higher data rate. |
| Devices.SlowerForwardLinkWins | internal/llrp/behavior.go:631-637 | With equal data rates, the mode that scores better is exactly the one of slower forward link, contrary to what the comments intend. |
| Devices.ScoresBetterIff | internal/llrp/behavior.go:631-637 | In all cases, including divisions by zero: the score ranks two modes by the weighed lead in data rate plus the weighed excess in RTcal. |
| Devices.ScoresInNumbers | internal/llrp/behavior.go:622-637 | The ranking in the numbers of the mode table, for modes that can be scored. |
| Devices.FasterModeLosesIff | internal/llrp/behavior.go:588-637 | A mode that is no worse on either link loses exactly when its lead in data rate weighs less than the other's slower forward link, contrary to the promise of the highest likely throughput. |
| Devices.BestForwardLinkLoses | internal/llrp/behavior.go:588-607 | A concrete table from which, for every mask, the slower of two otherwise equal modes is chosen. |
| Devices.CorrectedRates | internal/llrp/behavior.go:260-271 | The corrected table has, in order, just the modes with IDs below 1000, each with its link frequency shifted by the modulation for its data rate. |
| Devices.ImpinjBestMode | internal/llrp/behavior.go:254-274 | On an Impinj reader mode choice panics exactly when all reported modes are made up, and otherwise finds the best of the corrected ones. |
| Devices.OnlyMadeUpModes | internal/llrp/behavior.go:260-271 | A concrete table from which no mode is left. |
| Devices.NewROSpec | internal/llrp/behavior.go:661-674 | A behaviour is accepted exactly when its trigger port exists and it can be transmitted, whatever the environment; the mode is the best for the density. |
| ReaderGroups.EveryInterleaving | internal/llrp/reader_group.go:211-225 | Under every interleaving and failure pattern: no worker blocks, outsiders are untouched, and each finished device has its new ROSpec, none, or its old ones, with exactly the failures reported. |
| ReaderGroups.NoSendBlocks | internal/llrp/reader_group.go:212-221 | The error channel always has room. |
| ReaderGroups.ErrorsCountFailures | internal/llrp/reader_group.go:226-236 | There is one error for each failed replacement, and those are the devices without the new ROSpec. |
| ReaderGroups.ReplaceRO | internal/llrp/reader_group.go:158-167 | Success leaves exactly the new ROSpec; failure leaves none or what was there. |
| ReaderGroups.ReplaceAll | internal/llrp/reader_group.go:211-230 | All workers finish, in whatever interleaving, in a consistent state. |
| ReaderGroups.ReaderGroup.AddReader | internal/llrp/reader_group.go:128-156 | On success the reader accepts the behaviour, is a member and has its ROSpec; on failure the membership is unchanged. |
| ReaderGroups.ReaderGroup.RemoveReader | internal/llrp/reader_group.go:106-110 | Only that member goes. |
| ReaderGroups.ReaderGroup.SetBehavior | internal/llrp/reader_group.go:193-237 | Rejected exactly when some member refuses, and then nothing changes; otherwise the behaviour stands, every member accepts it, and every device has its new ROSpec or is reported. |
| ReaderGroups.ReplacementOutcome | internal/llrp/reader_group.go:211-230 | The concurrent replacement comes to this: each target has its new ROSpec, or what its failure left. |
| ReaderGroups.SpecForIsNumbered | internal/llrp/reader_group.go:139-145 | What is sent is the reader's own ROSpec, numbered 1. |
| ConcurrentGroups.MembersAfter | internal/llrp/reader_group.go:106-151 | Only an insertion makes a member, only a removal ends a membership, and only a change that all accept sets a behaviour. |
| ConcurrentGroups.InsertionDecides | internal/llrp/reader_group.go:149-151 | A step breaks the group's agreement if and only if it inserts a reader that refuses the behaviour by then. |
| ConcurrentGroups.AgreesIffNeverMisplaces | internal/llrp/reader_group.go:128-237 | Over every run with concurrent additions, all members accept the behaviour throughout if and only if no such insertion occurs. |
| ConcurrentGroups.StepConfigured | internal/llrp/reader_group.go:128-237 | A step leaves an unfailed member's device without exactly the ROSpec of the behaviour if and only if it inserts a reader whose device has another, or adds a ROSpec to a device that is no longer empty. |
| ConcurrentGroups.ConfiguredIffNeverMisconfigures | internal/llrp/reader_group.go:128-237 | Over every run, with any interleaving of changes, additions and their commands and any failures: all unfailed members' devices have exactly the ROSpec of the behaviour throughout if and only if no such step occurs. |
| ConcurrentGroups.ConfiguredIffNeverOutdated | internal/llrp/reader_group.go:128-237 | If no reader is added twice at a time and no change begins while a member is added again: if and only if every reader inserted would still make the ROSpec it was sent. |
| ConcurrentGroups.GroupAgreesOverRuns | internal/llrp/reader_group.go:128-237 | If the behaviour never changes while a reader is being added, whatever commands fail, every member accepts it throughout, and all but those reported as failed have exactly its ROSpec. |
| ConcurrentGroups.ChangeDuringAdd | internal/llrp/reader_group.go:134-151 | Whatever else is going on, a reader enters the group with the ROSpec of the behaviour it was validated for, and breaks the agreement if and only if it refuses the one that holds by then. |
| ConcurrentGroups.ChangeDuringAddBreaksAgreement | internal/llrp/reader_group.go:134-151 | A concrete case: a reader for a device that cannot go below 10 dBm, in a group turned down to 5 dBm. |
| ConcurrentGroups.ChangeDuringAddLeavesOldROSpec | internal/llrp/reader_group.go:134-151 | The same reader, in a group turned down to 20 dBm: all agree, nothing has failed, and its device goes on at 30 dBm. |
| ConcurrentGroups.ReconnectionAroundChangeLeavesTwo | internal/inventory/app/controller.go:124-127 | A member that connects again around a change holds the ROSpecs of both behaviours, and nothing has failed. |
| ConcurrentGroups.ReconnectionBehindChangeLeavesNone | internal/llrp/reader_group.go:158-167 | A member that connects again behind a change and fails has no ROSpec, though the change has no error to report. |

## Left out

- Floating-point rounding, NaN and infinities in RSSI means and offsets: these are real numbers here; only the infinite mode scores that a division by zero gives are modelled.
- Timestamps at or above 2^63 microseconds, and overflow of durations for absurd thresholds and age limits.
- The wall clock: the two sweeps take the current time as an argument.
- HTTP routes, messaging, JSON encoding, logging, signals and tickers; a file write is atomic and succeeds, and a missing or unreadable file is an empty list.
- InventoryApps.InventoryApp.HandleReport: the filling in of its report is done on values; in place, with its pointers, it is in ReportFill.
- The deletion of the blank alias from the map of the caller of UpdateConfig; the processor's copy is what is modelled.
- The order in which `sort.Slice` leaves equal powers: the contract of CopySorted does not fix it, but the method uses a particular sort.
- The nine repeated blocks of `fillAmbiguousNil` are one loop over the nine parameters; uptimes and AccessSpecID, which the code skips, are absent.
- Mutexes of buffers and tags: the processor is driven by the task loop alone.
- StartAll, StopAll, the vendor parameters and the remaining fields of ROSpecs: easy members.
- Devices.FindPower: requires a non-empty table, which is what the device constructor guarantees; the panic on an empty one is not modelled.
- Devices.NewROSpec: the singulation control, which scan type, population size and mobility determine, and the other fields of an ROSpec, because they settle in one branch each.
