# Volcano Hybrid integration — a Dafny model of its core

The Home Assistant integration for the Storz & Bickel Volcano Hybrid reaches the
device over Bluetooth Low Energy. This project models four parts of it, with
every BLE call replaced by the outcome it produced: the bytes a read returned or
the fact that it raised, whether a write raised, and what each connection attempt
ended in.

- **Codec** (`codec.dfy`): the characteristic encodings.
  - Temperatures are 2-byte little-endian tenths of a degree, written with `int(t * 10)`.
  - The status byte carries the heat flag (mask 0x01) and the fan flag (mask 0x02) in byte 0.
  - The hour and minute counters are 2-byte little-endian integers.
  - Brightness is one byte.
- **Api** (`api.dfy`): the `VolcanoAPI` object as a state record (link flag, client handle, disconnect callback, four cached values) with pure steps.
  - Notifications.
  - `is_connected`, `connect` (bounded retry), `disconnect` and the involuntary-disconnect handler.
  - The reads.
  - The range-checked writes, and the confirm-or-fall-back cache update after a heat or fan command.
- **Coordinator** (`coordinator.dfy`): `VolcanoCoordinator`.
  - The priority-ordered dynamic poll interval.
  - The session heuristics: start, temperature reached, end, fan transitions.
  - The 100-entry ring of session durations with its average and last-duration queries.
  - The daily and total session counters.
  - The 120-cycle slow path for device information.
  - One poll cycle, mapping (state, reads, clock) to (state, events, and either a snapshot with the next interval or UpdateFailed). `PollAsWritten` is `_async_update_data` as the code runs it. `PollCorrected` is the same poll with the two corrections of the Findings section.
  - The framework's handling of the result over several polls: it keeps its previous data when a poll raises UpdateFailed.
- **ConfigFlow** (`config_flow.dfy`):
  - MAC normalisation, shared by the Bluetooth, scan-selection and manual flows.
  - The duplicate-entry check.
  - `_is_volcano_device` and the scan filter.
  - The decision each flow step takes.
- **Statistics** (`statistics.dfy`): `VolcanoStatistics`.
  - The session-record lifecycle and the peak-temperature invariant.
  - The windowed count, sum, mean and mode queries.

`Common` (`common.dfy`) holds the shared vocabulary: `Option`, `Result`, `byte`,
`Sum` and `MaxOf`.

Modelling decisions:
- Temperatures are exact `real` degrees, not integer tenths. `set_target_temperature` caches the requested float, and tenths could not hold that value. The thresholds 50/60/80/100/5/10 °C therefore appear as written.
- Timestamps are whole seconds, dates whole day numbers, and coordinator durations `real` minutes.
- `now` and `today` are parameters of every step that reads the clock.
- Encodings:
  - The status register is decoded from byte 0 with masks 0x01 and 0x02, as `volcano/api.py:161-163` and `:389-392` do. The 16-bit masks `STATUS_HEAT_ON_MASK`/`STATUS_FAN_ON_MASK` (0x0020, 0x2000) in `const.py:75-76` are never read.
  - The target temperature is encoded as `int(t * 10)`, which truncates.
  - The hour and minute counters unpack the first two bytes of the payload.
- Where the code does something its authors evidently did not intend (see Findings), both versions are modelled. The as-written poll states what the code does; the corrected poll states what was intended; `Coordinator.PollsAgree` says where the two coincide.

## Model

| member | source | states |
|---|---|---|
| Codec.UnpackU16 | volcano/api.py:178 | `unpack("<H", data[:2])` succeeds exactly when there are two bytes; the value is below 65536, with `data[0]` as its low byte and `data[1]` as its high byte |
| Codec.UnpackPack | volcano/api.py:209 | unpacking a packed 16-bit value gives the value back |
| Codec.PackUnpack | volcano/api.py:363 | packing an unpacked two-byte payload gives the two bytes back |
| Codec.UnpackIgnoresTail | volcano/api.py:154 | bytes after the first two never change the decoded value |
| Codec.DecodeTemperature | volcano/api.py:192 | a temperature exists exactly for two or more bytes; ten times it is the little-endian raw value, so it lies in [0, 6553.6) |
| Codec.TruncatedTenths | volcano/api.py:208 | `int(t*10)` of an accepted temperature is the floor of `t*10`, between 400 and 2300 |
| Codec.EncodeTemperature | volcano/api.py:207-209 | the target payload is two bytes whose little-endian value is the truncated tenths |
| Codec.EncodeDecodeWithinTenth | volcano/api.py:204-209 | every accepted temperature is read back within one tenth below the request, never above it |
| Codec.TenthsRoundTrip | volcano/api.py:208-209 | every n in [400, 2300] tenths is accepted, written as n and decoded as n/10 exactly |
| Codec.DecodeStatus | volcano/api.py:160-163 | a status exists exactly for a non-empty payload; heat is bit 0 and fan is bit 1 of byte 0 |
| Codec.StatusIgnoresOtherBits | volcano/api.py:389-392 | two payloads whose first bytes agree on the two low bits decode alike, whatever else they hold |
| Codec.EncodeBrightness | volcano/api.py:310-314 | the brightness payload of an accepted percentage decodes back to that percentage |
| Codec.DecodeBrightness | volcano/api.py:310-314 | a payload carries a percentage only when it is exactly one byte within 0..100 |
| Codec.BrightnessRoundTrip | volcano/api.py:310-314 | every payload that carries a percentage is the encoding of it, so each accepted value has exactly one frame |
| Api.Init | volcano/api.py:38-48 | a fresh API object has no client and is not connected |
| Api.IsConnected | volcano/api.py:166-169 | connected means the flag, a client and the client's own report all hold. `Api.Disconnect`, `Api.HandleDisconnect` and `Api.AfterDisconnectEverythingFails` state what losing it does |
| Api.HandleTemperatureNotification | volcano/api.py:151-156 | a payload under two bytes leaves the state unchanged; otherwise only the cached current temperature changes, to the decoded value |
| Api.HandleStatusNotification | volcano/api.py:158-164 | an empty payload leaves the state unchanged; otherwise heat and fan become bits 0 and 1 of byte 0 and nothing else changes |
| Api.SetDisconnectCallback | volcano/api.py:133-135 | registers the callback and touches neither the link nor the cache |
| Api.Disconnect | volcano/api.py:107-124 | whatever happens, ends with the flag down, the client dropped and the object not connected; close is issued exactly for a present client that reports itself connected; the cache is kept |
| Api.HandleDisconnect | volcano/api.py:126-131 | an involuntary drop lowers the flag, keeps the client handle and the cache, and calls a registered callback exactly once |
| Api.ConnectFrom | volcano/api.py:52-103 | the retry loop from attempt i: it stops at the first attempt that comes up and sleeps only between attempts. Not-True means every remaining attempt was made and none came up; an exception means the last attempt raised; True leaves the object connected |
| Api.Connect | volcano/api.py:50-105 | at most `max_retries` attempts. True exactly when one of them comes up, and it is the first. An exception exactly when none comes up and the last one raised. False otherwise, leaving no client; zero rounds change nothing |
| Api.ReadTemperature | volcano/api.py:176-183 | a read gives the decoded temperature exactly when it returned two or more bytes; a raising read or a short payload is a connection error |
| Api.GetCurrentTemperature | volcano/api.py:171-183 | succeeds exactly when connected and the read returns two or more bytes, then caches the decoded value; on failure the state is unchanged and no write is issued |
| Api.GetTargetTemperature | volcano/api.py:185-197 | as for the current temperature, caching the target |
| Api.ReadCounter | volcano/api.py:356-378 | the hour or minute counter is the little-endian value of the first two bytes; a connection error when not connected, when the read raises or when it is short |
| Api.GetDeviceState | volcano/api.py:380-404 | fails only when not connected. A non-empty status read overwrites heat and fan; a failed or empty read leaves the state unchanged. The dictionary returned mirrors the cache |
| Api.SetTargetTemperature | volcano/api.py:199-215 | connection checked before range; a rejection writes nothing and changes nothing. An accepted temperature writes one frame holding its truncated tenths, and a successful write caches the requested value |
| Api.SetScreenBrightness | volcano/api.py:305-318 | connection checked before range; a rejection writes nothing; an accepted value writes one byte; the state never changes |
| Api.SetHeat | volcano/api.py:217-259 | writes 0x01/0x00 to the heat-on/off characteristic. After the write, heat is bit 0 of a non-empty status read, the commanded value if the read raised, or unchanged if the read was empty. Fan, temperatures and link are untouched |
| Api.SetFan | volcano/api.py:261-303 | the same for the fan command, with bit 1; heat is untouched |
| Api.SetThenGetTarget | volcano/api.py:185-211 | a target of n tenths written and then read back from the device returns exactly the requested temperature |
| Api.AfterDisconnectEverythingFails | volcano/api.py:167-169 | after `disconnect`, every write command fails with a connection error, issues no frame and changes nothing; so do the current-temperature and device-state reads |
| Coordinator.Init | __init__.py:88-99 | a new coordinator has no open session and zero sessions, and meets the invariant |
| Coordinator.IntervalFor | __init__.py:283-300 | the interval on present values is 1, 2, 3 or 5; a fan that is on gives 1; heating gives at most 2; with heat and fan off and no positive target it is 3 above 50 °C and 5 otherwise |
| Coordinator.IntervalTable | __init__.py:283-300 | the interval is 1 exactly when the fan is on, or when heating within 10 °C of a positive target. It is 2 exactly when the earlier rows fail and heat is on or a positive target is not yet reached; 3 or 5 otherwise, split at 50 °C. Heating never gives more than 2 |
| Coordinator.IntervalInputs | __init__.py:276-281 | the heuristic reads a missing temperature exactly from the disconnected snapshot, with heat and fan off; no previous data gives the `.get` defaults |
| Coordinator.IntervalAsWritten | __init__.py:276-300 | the code's heuristic with Python's comparison of `None`: on present temperatures it is the table, and a fan that is on gives 1 |
| Coordinator.OfflineSnapshotRaisesAsWritten | __init__.py:315-321 | the disconnected snapshot the coordinator returns makes the code's heuristic raise TypeError |
| Coordinator.DynamicInterval | __init__.py:276-300 | the corrected heuristic is always 1, 2, 3 or 5, gives 5 when there is no live snapshot, and agrees with the code wherever the code does not raise |
| Coordinator.AppendCapped | __init__.py:169-172 | appending keeps the buffer within 100 entries and makes the new duration the last one |
| Coordinator.Ring | __init__.py:169-172 | the buffer built by any run of appends never holds more than 100 durations |
| Coordinator.RingKeepsLast | __init__.py:169-172 | after any number of appends the buffer is exactly the last min(k, 100) durations, in order |
| Coordinator.AverageDuration | __init__.py:216-221 | the average is absent exactly for an empty buffer; otherwise it times the count is the sum |
| Coordinator.LastDuration | __init__.py:223-226 | the last duration is absent exactly for an empty buffer |
| Coordinator.AppendThenQuery | __init__.py:217-226 | after an append the last duration is the appended one and the average is defined |
| Coordinator.TruncDiv | __init__.py:233 | `int(a / b)` truncates toward zero: for a ≥ 0 it is the q with q·b ≤ a < (q+1)·b, for a ≤ 0 the q with (q−1)·b < a ≤ q·b, and its sign is that of a |
| Coordinator.TruncDivUnique | __init__.py:233 | those brackets have exactly one solution, so the quotient is the true quotient rounded toward zero and nothing else |
| Coordinator.StatsOf | __init__.py:228-233 | the snapshot's statistics report the counters and the buffer queries; minutes since last use exist exactly when a session has ended, and are then `int((now − end) / 60)` |
| Coordinator.DetectStart | __init__.py:119-140 | a start fires exactly when the previous reading is present and below 50, the current is above 60, the target above 100 and no session is open. Firing opens the session and adds one to both counters; the event reports the new counts |
| Coordinator.DetectReached | __init__.py:142-155 | fires exactly when the target is non-zero, the reading is at least target − 5 and the previous reading was present and below target − 5; the event carries both and whether a session is open |
| Coordinator.DetectEnd | __init__.py:157-185 | needs an open session and either a drop below 50 from a non-zero previous reading above 80, or the fan just switching off above 100. Ending closes the session, appends its length in minutes and records its end |
| Coordinator.FanEvents | __init__.py:187-203 | one event exactly when the fan differs from the last poll, started or stopped as it now is |
| Coordinator.Detect | __init__.py:340-343 | the three detectors in order emit at most three events, raise both counters together by at most one, and leave the "last" readings, the date and the link alone |
| Coordinator.Track | __init__.py:337-351 | after tracking the readings are the "last" ones; the counters rise together by at most one, and not at all without a current reading |
| Coordinator.ResetDaily | __init__.py:112-117 | a new date zeroes today's count and records the date; the same date changes nothing; the total is kept |
| Coordinator.TrackThenReset | __init__.py:340-363 | in the code's order the date is recorded and a new day's poll always ends with today's count 0, whether or not it started a session |
| Coordinator.ResetThenTrack | __init__.py:340-363 | with the reset first the date is recorded and a new day's count ends at 0 or 1; on a day that is not new it is exactly the code's order |
| Coordinator.NewDayStartLostAsWritten | __init__.py:340-363 | with the reset after detection, a start on a new day's first poll reports yesterday's count plus one and is then wiped from today's count |
| Coordinator.NewDayStartKeptCorrected | __init__.py:112-140 | with the reset before detection, the same poll reports and keeps one session today |
| Coordinator.DetectProperties | __init__.py:340-343 | the three detectors keep the invariant and count a session exactly when they report its start, which comes first, never with a session open. They emit no fan event and leave the "last" readings alone |
| Coordinator.TrackProperties | __init__.py:337-351 | one round of tracking keeps the invariant; both counters grow by one exactly when a start is reported, which comes first and carries the new counts; a fan event fires exactly when the fan changed; a missing reading never starts a session |
| Coordinator.TrackThenResetProperties | __init__.py:340-363 | in the code's order a reported start carries yesterday's count plus one, the total grows exactly with it, and on a day that is not new today's count grows with it too |
| Coordinator.TrackingProperties | __init__.py:337-363 | with the reset first a reported start carries today's new count, at least 1, and on a new day today's count is 1 exactly when a session started; the readings become the "last" ones |
| Coordinator.FetchDeviceInfo | __init__.py:243-274 | device information exists exactly when every read succeeds; empty strings are left out; the counters are the decoded reads |
| Coordinator.SlowPath | __init__.py:369-386 | on every 120th cycle the information is fetched and, when non-empty, cached; otherwise the cached information is reported unchanged |
| Coordinator.Reconnect | __init__.py:307-321 | a connected link is kept as it is. Otherwise at most two attempts are made: True exactly when one comes up, an exception exactly when neither comes up and the second raised, and True leaves the object connected |
| Coordinator.ReadTemperatures | __init__.py:307-330 | the poll gets past its start exactly when the link is up after the reconnect and the target read returns two bytes; the current temperature is then present exactly when its read returned two bytes |
| Coordinator.PrevInterval | __init__.py:389 | the code's interval from the previous data raises exactly on the disconnected snapshot, and otherwise equals the corrected one |
| Coordinator.CycleAsWritten | __init__.py:332-394 | past both reads the code raises UpdateFailed exactly after the disconnected snapshot, always advances the counter first, and ends a new day with today's count 0 |
| Coordinator.Complete | __init__.py:353-394 | the end of a poll; `Coordinator.CompleteFacts` states it: the counter advances and the cache is refreshed, the events pass through, and UpdateFailed comes exactly when the interval raises, else the live snapshot with that interval |
| Coordinator.CycleCorrected | __init__.py:332-394 | past both reads the corrected poll always publishes a live snapshot with the corrected interval and advances the counter |
| Coordinator.PollAsWritten | __init__.py:302-407 | UpdateFailed only after the disconnected snapshot; publishing the disconnected snapshot fires nothing and leaves the interval alone |
| Coordinator.PollCorrected | __init__.py:302-407 | the corrected poll always publishes, and leaves the interval alone exactly when it publishes the disconnected snapshot |
| Coordinator.CycleProperties | __init__.py:323-407 | as written, a poll past both reads keeps the invariant, advances the counter, counts a reported start into the total and makes the readings the "last" ones, whether or not it then raises, which it does exactly after the disconnected snapshot. A new day ends with today's count 0. A published snapshot is live, reports the cached temperatures and the counters, follows the slow path's schedule, and carries the corrected interval |
| Coordinator.CycleCorrectedProperties | __init__.py:323-394 | with both corrections, a poll past both reads keeps the invariant and publishes a live snapshot reporting the cached temperatures and the counters; on a new day today's count is 1 exactly when a session started; fan events match the fan change and the slow path follows its schedule |
| Coordinator.PollProperties | __init__.py:302-407 | as written, every poll keeps the invariant and never lowers the total. The disconnected snapshot fires nothing and leaves the interval and the coordinator's own fields alone. UpdateFailed comes exactly when the reads succeed after the disconnected snapshot, with the link connected and the counter already advanced |
| Coordinator.PollCorrectedProperties | __init__.py:302-407 | with both corrections every poll publishes, keeps the invariant and never lowers the total; the disconnected snapshot comes exactly when the start of the poll stops, and changes nothing but the link |
| Coordinator.PollsAgree | __init__.py:302-407 | on a day that is not new and after anything but the disconnected snapshot, the code and the corrected poll give the same result; where the code raises, the corrected poll publishes live data |
| Coordinator.FailedReconnectThenInterval | __init__.py:307-321 | two raising reconnect attempts publish the disconnected snapshot and change nothing but the link; after it the code's interval raises and the corrected one is 5 |
| Coordinator.OfflineStaysAsWritten | __init__.py:389-407 | once the disconnected snapshot is the framework's data, no run of polls as written ever publishes live data again, whatever the device answers |
| Coordinator.OfflineLeftCorrected | __init__.py:389-407 | from the disconnected snapshot, a poll whose link is up and whose target read succeeds raises as written and publishes live data when corrected |
| ConfigFlow.NormalizeMac | config_flow.py:56-57 | the shared MAC normalisation; `ConfigFlow.NormalizedShape`, `ConfigFlow.NormalizeIffKey` and `ConfigFlow.NormalizeIdempotent` state its shape, its key and that it is a fixed point |
| ConfigFlow.StripSeparators | config_flow.py:56 | removing ':' and '-' leaves no separator and never lengthens the address |
| ConfigFlow.StripKeepsChars | config_flow.py:56 | every character left after removing separators is a character of the input |
| ConfigFlow.JoinFromChars | config_flow.py:57 | the joined pieces hold only ':' and characters of the stripped address |
| ConfigFlow.StripJoinFrom | config_flow.py:57 | removing the separators from the join gives back the first twelve characters it was cut from |
| ConfigFlow.NormalizedChars | config_flow.py:56-57 | a normalised MAC holds no '-' and no lower-case letter |
| ConfigFlow.NormalizedShape | config_flow.py:56-57 | a normalised MAC has exactly five ':', no '-' and no lower-case letter. With twelve or more characters left after stripping, it is 17 long with ':' exactly at positions 2, 5, 8, 11 and 14 |
| ConfigFlow.NormalizeIffKey | config_flow.py:119-120 | two addresses normalise alike exactly when their first twelve non-separator characters agree once upper-cased |
| ConfigFlow.NormalizeIdempotent | config_flow.py:171-173 | normalising a normalised MAC changes nothing |
| ConfigFlow.NormalizeIgnoresCase | config_flow.py:171 | addresses that differ only in letter case normalise alike |
| ConfigFlow.NormalizeIgnoresSeparators | config_flow.py:56 | addresses that differ only in where ':' and '-' appear normalise alike |
| ConfigFlow.NormalizeIgnoresTail | config_flow.py:57 | characters after the twelfth non-separator are dropped |
| ConfigFlow.IdentificationIgnoresCase | config_flow.py:207-214 | recognising a Volcano ignores the case of the name and of the UUIDs, and a missing name acts as the empty one |
| ConfigFlow.IsVolcanoDevice | config_flow.py:207-214 | a device is a Volcano when its name mentions "volcano" or "storz" or it offers the service UUID; `ConfigFlow.IdentificationIgnoresCase` shows that case is ignored, and `ConfigFlow.ScanKeepsVolcanoes` that only such devices are offered |
| ConfigFlow.ScanFilter | config_flow.py:238-245 | the scan offers exactly the devices with a non-empty name containing "VOLCANO" once upper-cased, each displayed as "name - (address)" |
| ConfigFlow.ScanFilterAppend | config_flow.py:238-248 | the scan keeps the devices' order: filtering a concatenation concatenates the filtered parts |
| ConfigFlow.ScanKeepsVolcanoes | config_flow.py:240 | every device the scan offers is also recognised as a Volcano by its name |
| ConfigFlow.Matching | config_flow.py:62-65 | the matching entries are exactly the existing entries storing that MAC |
| ConfigFlow.AlreadyConfiguredIff | config_flow.py:62-69 | a duplicate is reported exactly when an existing entry stores the normalised MAC, and two spellings of one address agree on it |
| ConfigFlow.Select | config_flow.py:110-115 | the selected device is the first offered one with that display string; none exactly when no offered device has it |
| ConfigFlow.BluetoothStep | config_flow.py:45-81 | an entry is created only for a recognised Volcano, and it stores the normalised address, which no existing entry stores |
| ConfigFlow.ManualStep | config_flow.py:164-192 | an entry is created only after a passing connection test, and it stores the normalised address, which no existing entry stores |
| ConfigFlow.DiscoveryStep | config_flow.py:101-162 | an entry is created only for a selected offered device that connects, and it stores that device's normalised address, which no existing entry stores |
| ConfigFlow.BluetoothStepProperties | config_flow.py:45-81 | the Bluetooth step aborts as a duplicate exactly for a recognised device whose MAC is stored, and creates an entry exactly for a recognised new one. It stores the normalised MAC under the title "Volcano Hybrid (MAC)" |
| ConfigFlow.ManualStepProperties | config_flow.py:164-192 | the manual step reports a duplicate exactly when the MAC is stored, creates an entry exactly when it is new and the connection test passes, and stores the normalised MAC |
| ConfigFlow.DiscoveryStepProperties | config_flow.py:101-162 | the discovery step creates an entry exactly for a selected offered device whose MAC is not stored and that connects, storing its normalised MAC. An empty re-scan replaces any error with "no_devices_found", and otherwise a duplicate selection is reported exactly when its MAC is stored |
| Statistics.Init | volcano/statistics.py:21-27 | a new tracker has no open session and no records |
| Statistics.RecordHeatOn | volcano/statistics.py:29-37 | opens a session with temperatures [t], peak t and start temperature t at `now`, replacing any open one; the records are untouched |
| Statistics.RecordTemperatureChange | volcano/statistics.py:40-46 | with no session nothing changes; otherwise t is appended and the peak stays the maximum of the recorded temperatures |
| Statistics.Mean | volcano/statistics.py:57-58 | the mean times the count is the sum |
| Statistics.Finish | volcano/statistics.py:53-64 | the record holds the duration end − start and the mean of the temperatures. It also holds the peak, the start temperature, today's date and the start and end times |
| Statistics.RecordHeatOff | volcano/statistics.py:48-74 | with no session nothing changes; otherwise exactly one record is appended and the session is closed |
| Statistics.FinishedRecordBounds | volcano/statistics.py:57-59 | a record's mean temperature lies at or above every lower bound of the recorded temperatures and at or below the record's maximum |
| Statistics.HistoryOnlyGrows | volcano/statistics.py:67 | over any sequence of calls the records only grow, the old ones stay in place, and the open session stays valid |
| Statistics.OnDay | volcano/statistics.py:107-110 | today's sessions are dated today and are no more than the records |
| Statistics.OnDayMembers | volcano/statistics.py:107-110 | today's sessions are records, and every record dated today is among them |
| Statistics.TodaySessions | volcano/statistics.py:107-110 | today's records; `Statistics.OnDay` and `Statistics.OnDayMembers` state which they are |
| Statistics.SessionsToday | volcano/statistics.py:145-147 | today's count is never more than the records; `Statistics.HeatOffCountsToday` shows that ending a session today adds exactly one |
| Statistics.TotalRuntimeToday | volcano/statistics.py:149-153 | today's runtime in minutes; `Statistics.HeatOffAddsRuntime` shows that ending a session today adds its duration / 60 |
| Statistics.Since | volcano/statistics.py:114-118 | the window's records are dated on or after the cutoff and are no more than the records |
| Statistics.SinceMembers | volcano/statistics.py:114-118 | the window holds records only, and every record dated on or after the cutoff is in it |
| Statistics.AverageSessionDuration | volcano/statistics.py:112-124 | 0.0 for an empty window; otherwise the average times the count times 60 is the summed duration |
| Statistics.AverageWithinBounds | volcano/statistics.py:120-124 | the average in minutes lies between any bounds of the durations, divided by 60 |
| Statistics.MostFrequent | volcano/statistics.py:137-143 | the result occurs in the list, no element occurs more often, and every element before its first occurrence occurs strictly less often |
| Statistics.FavoriteTemperature | volcano/statistics.py:126-143 | None exactly for an empty window; otherwise a start temperature with maximal count, ties going to the one seen first |
| Statistics.LatestEnd | volcano/statistics.py:160 | the latest end time is attained and bounds every record's end time |
| Statistics.TimeSinceLastUse | volcano/statistics.py:155-161 | None exactly when there are no records; otherwise now minus the latest end time |
| Statistics.HeatOffCountsToday | volcano/statistics.py:145-147 | ending an open session today adds one to today's count |
| Statistics.HeatOffAddsRuntime | volcano/statistics.py:149-153 | ending an open session today adds its duration in minutes to today's runtime |
| Statistics.HeatOffResetsLastUse | volcano/statistics.py:155-161 | right after ending a session that ended last, the time since last use is zero |
| Statistics.GetDiagnostics | volcano/statistics.py:163-173 | diagnostics report the total as the number of records, whether a session is open, the favourite temperature of 30 days, and today's count, today's runtime, the 7-day average and the time since last use as their queries compute them |

## Left out

- BLE and platform I/O: the Bleak client calls, the Home Assistant device lookup and `start_notify`/`stop_notify` are replaced by outcome parameters (`Read`, `Write`, `Attempt`). The 2-second pause between connection attempts (`volcano/api.py:103`) becomes a count of sleeps (`Connected.sleeps`). The 0.1-second settle pauses after each heat and fan command (`volcano/api.py:225`, `:247`, `:269`, `:291`) are dropped: they only delay the confirming read, and time is not modelled.
- The connection test of the config flow (`config_flow.py:216-229`) is the Boolean parameter `connects`.
- The cleanup inside `connect` only drops the client handle in the model. Whether closing a client that reports itself connected raises is not observable afterwards.
- Home Assistant glue is not modelled:
  - the form schemas, the user step's menu and the options flow;
  - `async_set_unique_id` and the exception branches around it (`config_flow.py:193-199`: "already_configured" from a `HomeAssistantError`, "invalid_mac", "unknown"), which depend on framework behaviour outside the model;
  - the event bus (events are a returned list);
  - the `DataUpdateCoordinator` scheduling. The previous data is the `prev` parameter of a poll. What the framework keeps after a poll (the published snapshot, or its old data after UpdateFailed) is `Coordinator.NextData`, and a run of polls is `Coordinator.RunAsWritten`. Timers, retries and listeners are not modelled.
- The thin entity adapters (sensor.py, climate.py, number.py, button.py, diagnostics.py) are not part of this model. This includes sensor.py's use of a `coordinator.statistics` attribute that `__init__.py` never defines.
- The fan entity's auto-off timer (fan.py) is a cancellable asyncio task. Its point is concurrency, so it is left out.
- Recorder persistence (`volcano/statistics.py:82-105`) writes to Home Assistant's statistics store, which is outside the model. A failure there is logged and swallowed, so the in-memory records are the same either way.
- Firmware and serial strings arrive already decoded (`InfoReads`). UTF-8 decoding and `strip()` are not modelled.
- Floating point is not modelled: temperatures and durations are exact reals.
  - Codec.TruncatedTenths: the product `t * 10` is exact in the model. A temperature whose binary product falls just below a whole number is written one tenth lower by the code than by the model.
  - Coordinator.AverageDuration: states the exact mean; the `round(x, 1)` of `average_session_duration` is not modelled.
  - Coordinator.DetectEnd: the duration is exact; the `round(duration, 1)` of the event payload is not modelled.
- Case mapping is ASCII only, while Python's `upper()`/`lower()` also map non-ASCII letters. It affects MAC normalisation and device identification.
- Each step reads the clock once (`now`, `today`). The code calls `datetime.now()` several times inside one call, for example three times in `record_heat_off`.
- The session timestamps are in whole seconds; `isoformat` strings and `timedelta` formatting are not modelled.
- Statistics.SessionsToday is modelled but only bounded by the record count in its contract. What it counts is stated by Statistics.OnDay and Statistics.HeatOffCountsToday.
- The 16-bit status masks of `const.py:75-76` are unused by the code and not modelled.

## Findings

| source | as written | input that shows it | evidently intended | confidence | as-written member | corrected member |
|---|---|---|---|---|---|---|
| __init__.py:276-300 | The interval heuristic orders the snapshot's temperatures. The disconnected snapshot of `__init__.py:315-321` and `:398-404` stores `None` for both, and `None > 0` raises TypeError. That happens on the next poll that reaches line 389, and it is turned into UpdateFailed. The framework keeps the previous snapshot after a failed update, so every later poll that reaches line 389 raises too, and no live data is ever published again | the previous snapshot is the disconnected one (heat False, fan False, temperatures None) and the next poll reconnects | a missing temperature read as the `.get` default 0, giving the idle interval 5 | high; not executed | Coordinator.PollAsWritten, with Coordinator.IntervalAsWritten (shown by Coordinator.OfflineStaysAsWritten, Coordinator.OfflineSnapshotRaisesAsWritten and Coordinator.FailedReconnectThenInterval) | Coordinator.PollCorrected, with Coordinator.DynamicInterval (proved in Coordinator.OfflineLeftCorrected and Coordinator.PollsAgree) |
| __init__.py:340-363 | `_reset_daily_stats` runs only when the `sessions_today` property is read at lines 355 and 363, after the detectors of lines 340-343 have run. A session started on the first poll of a new day is counted into yesterday's total, its event reports yesterday's count plus one, and the reset then wipes it from today's count | sessions today 3, total 3, previous reading 30 °C, last reset on day 1; a poll on day 2 reads 70 °C with target 180 °C | the reset runs before detection, so the new session counts as today's first | medium; not executed | Coordinator.PollAsWritten, with Coordinator.TrackThenReset (shown by Coordinator.NewDayStartLostAsWritten and Coordinator.CycleProperties) | Coordinator.PollCorrected, with Coordinator.ResetThenTrack (proved in Coordinator.TrackingProperties, Coordinator.CycleCorrectedProperties and Coordinator.NewDayStartKeptCorrected) |
