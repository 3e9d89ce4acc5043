# Gait exoskeleton data pipeline and controller logic

This project models a two-joint (hip and ankle) gait-assist system, in three
parts.

The PC telemetry collector, in two revisions:

- It frames the serial text stream into lines and filters them.
- It extracts `{"t":…,"h":…,"a":…}` records.
- It keeps three lock-step rolling buffers of 2000 samples: time, hip angle and ankle angle.
- It segments gait cycles online and writes the record of each completed cycle.
- The newer GUI revision uses peak detection to segment cycles and accepts a record embedded in surrounding text.
- The earlier revision accepts only whole-line records and uses a return-to-start rule.

The firmware's CAN codec for the two joint motors:

- the command frame layout;
- the 0xA3 and 0xA4 position payloads;
- decoding of the 0x92 multi-turn angle and the 0x9A and 0x9C status replies.

The firmware's decision logic:

- the ankle compliance state machine (NORMAL, COMPLIANT, HOLD, FAULT_SAFE);
- the adaptive hip threshold window;
- the debounced stance/swing phase detector;
- the ankle dorsiflexion assist strategy and its S-curve;
- the test swing oscillator;
- the serial receiver of gait trajectories, which frames a JSON object by brace depth and validates it.

Every operation is a pure function over an immutable state datatype. The
firmware's `millis()` reading is an explicit `U32` argument. Elapsed times
are computed modulo 2^32 (module `Clock`), as unsigned subtraction does.

JSON decoding is a function parameter: `Telemetry.Decoder` on the PC side
and `GaitRx.Parser` on the firmware side. Reading a file is an
`Option<SeriesDoc>` argument, where `None` is a missing or unreadable file.
The wall clock of `load_realtime_data` is the `baseMs` argument. Angles,
times and thresholds are reals.

| file | module | models |
|---|---|---|
| wrappers.dfy | Wrappers | `Option` |
| text.dfy | Text | `strip`, `startswith`, `endswith`, `find`, `rfind` |
| line_framer.dfy | LineFramer | `buffer.split('\n', 1)` framing of serial reads |
| rolling.dfy | Rolling | `deque(maxlen=2000)` |
| telemetry.dfy | Telemetry | record acceptance and prompt filter shared by both collectors |
| cycle_records.dfy | CycleRecords | the document `_save_gait_cycle` writes |
| gui_ingest.dfy | GuiIngest | GUI `_collect_data` |
| peak_detector.dfy | PeakDetector, PeakDetectorFacts | GUI `_detect_gait_cycle` and its reachable-state invariant |
| gui_collector.dfy | GuiCollector | GUI `process_data`, snapshots, reload, clear |
| basic_collector.dfy | BasicCollector | the earlier collector revision |
| clock.dfy | Clock | 32-bit `millis()` arithmetic |
| can_codec.dfy | CanCodec | CAN frames |
| compliance.dfy | Compliance | `updateComplianceController`, `resetComplianceFault` |
| threshold_window.dfy | ThresholdWindow | `updateAdaptiveThreshold` |
| gait_phase.dfy | GaitPhase | `updateGaitPhaseDetector` |
| ankle_assist.dfy | AnkleAssist | `smoothStep`, `updateAnkleAssistStrategy`, `setAnkleAssistEnabled` |
| swing_oscillator.dfy | SwingOscillator | `startSwing`, `stopSwing`, `updateSwing` |
| gait_rx.dfy | GaitRx | `processReceivedGaitData`, `loadGaitTrajectoryFromJson` |

## Model

| member | source | states |
|---|---|---|
| Text.Strip | pc/gait_data_collector_gui.py:184 | the result is the part of the line after its leading whitespace, with no whitespace at either end, and everything cut from the end is whitespace; it is empty exactly when the line is all whitespace |
| Text.Find | pc/gait_data_collector_gui.py:201 | the index of the first `{`, or -1 exactly when there is none |
| Text.RFind | pc/gait_data_collector_gui.py:202 | the index of the last `}`, or -1 exactly when there is none |
| LineFramer.SplitLines | pc/gait_data_collector_gui.py:180-182 | the complete lines and the carry-over reassemble the buffer exactly, and neither a line nor the carry-over holds a newline |
| LineFramer.SplitLinesUnique | pc/gait_data_collector_gui.py:180-182 | any newline-free lines and newline-free rest that reassemble the buffer are the ones produced, so each complete line is processed exactly once, in order |
| LineFramer.FeedTwice | pc/gait_data_collector_gui.py:176-182 | two successive reads yield the same lines, in the same order, and the same carry-over as one read of both chunks |
| Telemetry.Accept | pc/gait_data_collector_gui.py:207-208 | a decoded record becomes a sample exactly when it has all of `t`, `h` and `a`, and the sample carries those three values |
| Telemetry.DecodeSample | pc/gait_data_collector_gui.py:205-218 | a sample results exactly when the text decodes and the record is accepted; decode errors yield nothing |
| GuiIngest.Candidate | pc/gait_data_collector_gui.py:199-204 | a candidate exists exactly when some `{` precedes some `}`; it runs from the first `{` through the last `}`, with no `{` before it and no `}` after it |
| GuiIngest.HandleLine | pc/gait_data_collector_gui.py:184-218 | a line goes to the raw channel, unmodified, exactly when it is not blank and not a `>`/`Command:` prompt; a sample is queued exactly when the line is forwarded, has a brace pair, and its candidate decodes to an accepted record |
| GuiIngest.HandleLines | pc/gait_data_collector_gui.py:181-218 | the raw channel and queue grow by exactly what the lines yield, in order; `total_received` rises by the number of samples queued |
| GuiIngest.Read | pc/gait_data_collector_gui.py:176-218 | after a read, the carry-over holds no newline; the raw channel and queue grow by what the framed lines yield; `total_received` rises by exactly the queue's growth |
| GuiIngest.ReadTwice | pc/gait_data_collector_gui.py:176-218 | how the serial port splits its decoded text changes nothing that is queued, forwarded or counted |
| Rolling.Push | pc/gait_data_collector_gui.py:58-60 | a capacity-bounded append: the length grows by one until the capacity, the new value is last, and the result is the newest `cap` values of the buffer followed by the new one |
| Rolling.PushAllKeepsNewest | pc/gait_data_collector_gui.py:58-60 | after any number of appends, a buffer holds exactly the newest 2000 values appended, in arrival order |
| Rolling.PushKeepsRecent | pc/gait_data_collector_gui.py:74 | after an append, the older entries sit, in order, just before the new one |
| GuiCollector.Consume | pc/gait_data_collector_gui.py:242-253 | one sample is appended to all three buffers and run through the detector, whose new state is kept; a record the detector saves becomes the cycle file, otherwise the file is unchanged; lock-step buffers and the detector invariant are preserved |
| GuiCollector.DetectAll | pc/gait_data_collector_gui.py:240-255 | the detector run alone over the samples in order, keeping the last record saved; every step keeps the detector coherent |
| GuiCollector.ConsumeAll | pc/gait_data_collector_gui.py:240-255 | consuming samples in order appends their times, hip angles and ankle angles to the three buffers, leaves the detector as running it over the same samples does, makes the cycle file the last record saved (unchanged if none), and keeps the invariant |
| GuiCollector.ProcessData | pc/gait_data_collector_gui.py:236-261 | at most 100 queued samples are consumed, oldest first, and the rest stay queued; the buffers then hold the newest 2000 of all values appended, in lock-step; every consumed sample went through the detector, and the cycle file is the last record saved in the batch, unchanged if none |
| GuiCollector.GetRealtimeData | pc/gait_data_collector_gui.py:509-525 | the three series have the length of the shortest buffer and are its prefixes; they are empty exactly when a buffer is empty; times are seconds relative to the newest; lock-step buffers come back whole and end at 0 |
| GuiCollector.ClearAllData | pc/gait_data_collector_gui.py:484-507 | the buffers become empty and the detector is as freshly constructed; the saved cycle file is untouched |
| GuiCollector.ClearThenFirstSample | pc/gait_data_collector_gui.py:484-507 | after a clear, the next sample is buffered alone and only arms the detector |
| GuiCollector.Trunc | pc/gait_data_collector_gui.py:475 | Python `int()`: truncation toward zero, within one of its argument on the side of zero |
| GuiCollector.LoadRealtimeDataAsWritten | pc/gait_data_collector_gui.py:454-482 | a missing file fails and changes nothing; an empty time series succeeds and changes nothing |
| GuiCollector.LoadAsWrittenBreaksLockStep | pc/gait_data_collector_gui.py:474-478 | a file with two times and one hip angle fails after two times but only one hip and one ankle value were appended, leaving the buffers out of lock-step |
| GuiCollector.AsWrittenEntriesFrom | pc/gait_data_collector_gui.py:474-478 | with both angle series at least as long as the time series, the loop as written appends every remaining timestamp, hip angle and ankle angle and succeeds |
| GuiCollector.AsWrittenAgreesOnCompleteFile | pc/gait_data_collector_gui.py:454-482 | on a missing file, or one whose angle series cover the time series, the load as written and the corrected load give the same result |
| GuiCollector.LoadRealtimeData | pc/gait_data_collector_gui.py:454-482 | corrected load: it succeeds exactly when both angle series cover the time series; a failure changes nothing; a success refills the buffers in lock-step with the newest 2000 rebuilt timestamps and angles |
| GuiCollector.GetGaitCycleData | pc/gait_data_collector_gui.py:527-531 | copies of the three cycle lists, of equal length under the detector invariant |
| GuiCollector.LoadGaitCycle | pc/gait_data_collector_gui.py:431-452 | the cycle lists are replaced by the file's series, and a missing key reads as empty; the rest of the detector, the buffers and the cycle file are untouched; a missing file fails and changes nothing |
| GuiCollector.SaveThenLoad | pc/gait_data_collector_gui.py:409-445 | loading the file a cycle was saved to shows exactly that cycle's relative times and angles |
| GuiCollector.LoadGaitCycleUnchecked | pc/gait_data_collector_gui.py:443-445 | nothing checks the loaded series' lengths; a file with unequal series leaves the cycle lists out of lock-step |
| CycleRecords.Relative | pc/gait_data_collector_gui.py:407 | each relative time, scaled back to ms and offset by the origin, is the original timestamp |
| CycleRecords.BuildRecord | pc/gait_data_collector_gui.py:399-416 | nothing is saved exactly when there are fewer than 10 samples; otherwise the record starts at time 0, `data_points` is the sample count, the duration is the last relative time, and the angles are the cycle's own |
| CycleRecords.RecordShape | pc/gait_data_collector_gui.py:405-416 | from lock-step lists, all three series have `data_points` entries; ascending timestamps give ascending relative times from 0 and a non-negative duration |
| CycleRecords.CycleDoc | pc/gait_data_collector_gui.py:409-416 | the written document carries the `time`, `hip_angle` and `ankle_angle` keys, and each reads back as the record's series |
| PeakDetector.FindPeak | pc/gait_data_collector_gui.py:292-314 | a peak candidate exists exactly when the last trend and the new difference have strictly opposite signs, there are at least 3 history entries, and the middle of the last three is at or above both neighbours or at or below both; the candidate is that middle entry |
| PeakDetector.FirstAtOrAfter | pc/gait_data_collector_gui.py:333-336 | the index of the first timestamp at or after the bound, or 0 when there is none |
| PeakDetector.TrimFrom | pc/gait_data_collector_gui.py:338-342 | exactly the cycle samples before the first timestamp at or after the bound are dropped, from all three lists alike |
| PeakDetector.OnPeak | pc/gait_data_collector_gui.py:316-362 | the last peak always advances to the new peak; a record is saved exactly for an 800-3000 ms peak gap over at least 20 samples; an in-range pair trims the cycle to the previous peak, which becomes the cycle start; an out-of-range pair leaves the cycle; a first peak trims the cycle to itself; a trim drops the same prefix from the times and from both angle lists |
| PeakDetector.PushTrend | pc/gait_data_collector_gui.py:365-367 | the new difference is last, and the trend never exceeds 5 entries |
| PeakDetector.Accumulate | pc/gait_data_collector_gui.py:369-395 | inside a cycle, the sample is appended unless the cycle is more than 3000 ms old, which clears the cycle and the last peak; outside a cycle, a new cycle holds only the sample |
| PeakDetector.Detect | pc/gait_data_collector_gui.py:263-397 | the first sample only arms the detector and joins no cycle; a record is saved only for an in-range peak gap over at least 20 samples; history and trend stay bounded; the cycle lists stay in lock-step |
| PeakDetectorFacts.DetectHistoryTrend | pc/gait_data_collector_gui.py:284-291 | after a non-first sample, the history gained that sample (at most 20 kept) and the trend gained its angle difference |
| PeakDetectorFacts.DetectKeepsCoherent | pc/gait_data_collector_gui.py:263-397 | every step preserves the invariant: bounded history and trend, lock-step cycle lists, the newest history angle is the last angle, and the newest trend is the difference of the two newest angles |
| PeakDetectorFacts.FlipIsStrictPeak | pc/gait_data_collector_gui.py:295-314 | in a reachable state, a strict trend flip with enough history always passes the extremum test, and strictly, so the `>=`/`<=` tie-break never matters |
| PeakDetectorFacts.TimeoutThenRestart | pc/gait_data_collector_gui.py:376-395 | a sample more than 3000 ms after the cycle start (as the peak test leaves it) clears the cycle and last peak; the next sample starts a cycle holding only itself, with no prior peak, and saves nothing |
| PeakDetectorFacts.TimeoutAfterGap | pc/gait_data_collector_gui.py:316-395 | the same outcome for a sample more than 3000 ms after the cycle start, the last peak and every sample in the history |
| BasicCollector.ParseLine | pc/gait_data_collector.py:149-166 | a line yields a sample exactly when, trimmed, it is non-blank, not a prompt, starts with `{`, ends with `}`, and decodes to a record with `t`, `h` and `a` |
| BasicCollector.Read | pc/gait_data_collector.py:142-166 | after a read, the carry-over holds no newline, and the framed lines' samples are queued in order behind what was waiting |
| BasicCollector.ParseLines | pc/gait_data_collector.py:147-166 | the lines' samples in order: at most one per line, and one for every line exactly when every line parses |
| BasicCollector.ParseLinesSources | pc/gait_data_collector.py:147-166 | every queued sample is what one of the lines parses to |
| BasicCollector.ParseLinesKeepsAll | pc/gait_data_collector.py:147-166 | when every line parses, one sample is queued per line |
| BasicCollector.ReadTwice | pc/gait_data_collector.py:142-166 | how the serial port splits its decoded text does not change what is queued |
| BasicCollector.StricterThanGui | pc/gait_data_collector.py:160-164 | every line the earlier revision accepts, the GUI revision accepts as the same sample |
| BasicCollector.GuiTakesMore | pc/gait_data_collector.py:160 | the converse fails: `x{}` with a valid record is taken by the GUI revision and dropped by the earlier one |
| BasicCollector.Detect | pc/gait_data_collector.py:197-238 | the first sample sets the start point and empties the cycle; within a cycle the sample is appended, and a return within 5° after more than 500 ms saves the record of the cycle and restarts it at this sample; outside a cycle a new one starts here |
| BasicCollector.DetectKeepsReachable | pc/gait_data_collector.py:197-238 | every step keeps the cycle lists in lock-step, keeps an armed detector inside a cycle, and keeps the last cycle angle equal to the last angle seen |
| BasicCollector.RestartBranchUnreachable | pc/gait_data_collector.py:230-236 | in every reachable state, an armed detector is inside a cycle, so the not-in-cycle branch never runs |
| BasicCollector.BoundarySampleShared | pc/gait_data_collector.py:218-229 | the sample that closes a cycle is the last point of the saved record and the only point of the next cycle, which starts at it |
| BasicCollector.ShortReturnRestarts | pc/gait_data_collector.py:221-229 | a return with fewer than 10 accumulated samples saves nothing but still restarts the cycle at this sample |
| BasicCollector.Consume | pc/gait_data_collector.py:182-189 | the sample is appended to each of the three buffers and run through the detector, whose new state is kept; a saved record becomes the cycle file, otherwise the file is unchanged; the collector invariant is kept |
| BasicCollector.DetectAll | pc/gait_data_collector.py:179-192 | the detector run alone over the samples in order, keeping the last record saved; every step keeps the detector reachable |
| BasicCollector.ConsumeAll | pc/gait_data_collector.py:179-192 | consuming samples in order appends them to the three buffers, leaves the detector as running it over the same samples does, and makes the cycle file the last record saved, unchanged if none |
| BasicCollector.ProcessData | pc/gait_data_collector.py:177-195 | the whole queue is drained; from lock-step buffers, they then hold the newest 2000 values of everything appended; every sample went through the detector, and the cycle file is the last record saved, unchanged if none; the collector invariant is kept |
| BasicCollector.GetRealtimeData | pc/gait_data_collector.py:296-306 | times become seconds relative to the newest, so the last is 0; the angle buffers are returned as they are; empty buffers give empty series |
| BasicCollector.LoadGaitCycle | pc/gait_data_collector.py:268-294 | success exactly when the file exists; each cycle list is replaced by the file's series, and a missing key reads as empty; the rest of the detector, the buffers and the cycle file are untouched; a failure changes nothing |
| BasicCollector.SaveThenLoad | pc/gait_data_collector.py:247-283 | loading a saved record restores its relative times and angles as the cycle lists |
| Clock.Elapsed | firmware/src/main.cpp:275-278 | `now - since` on `uint32_t`: the plain difference, or the difference plus 2^32 across a wrap |
| Clock.ElapsedInverse | firmware/src/main.cpp:275-278 | moving `since` forward by the elapsed time lands on `now` |
| Clock.ElapsedAcrossWrap | firmware/src/main.cpp:723 | a distance under one period is measured exactly, even across the counter wrap (the same subtraction recurs at line 743) |
| CanCodec.CommandFrame | firmware/src/main.cpp:890-906 | id `0x140 + motorId` and length 8; byte 0 is the command, bytes 1..min(dataLen,7) are copied from the data, and every other byte is zero |
| CanCodec.QueryFrameIsBare | firmware/src/main.cpp:960-962 | a query frame is its command byte followed by seven zero bytes |
| CanCodec.LeByteIsShiftMask | firmware/src/main.cpp:989-993 | byte k of the little-endian encoding is `(v >> 8k) & 0xFF` |
| CanCodec.Int32RoundTrip | firmware/src/main.cpp:989-993 | the four little-endian two's-complement bytes of an `int32` target read back as the target |
| CanCodec.PositionPayload | firmware/src/main.cpp:984-993 | the 0xA3 payload is three zero bytes followed by the target's four bytes |
| CanCodec.PositionSpeedPayload | firmware/src/main.cpp:1007-1018 | the 0xA4 payload is a zero byte, the speed limit as a little-endian `uint16`, then the target's four bytes |
| CanCodec.PositionFrame | firmware/src/main.cpp:973-995 | a 0xA3 frame to id `0x140 + motorId`: three zero bytes, then the target's four little-endian bytes, which read back as the target |
| CanCodec.PositionSpeedFrame | firmware/src/main.cpp:1003-1017 | a 0xA4 frame to id `0x140 + motorId`: a zero byte, bytes 2-3 reading back as the speed limit, then the target's four little-endian bytes, which read back as the target |
| CanCodec.PositionFrameRoundTrip | firmware/src/main.cpp:973-995 | reading a 0xA3 frame back recovers the motor id and the target |
| CanCodec.PositionSpeedFrameRoundTrip | firmware/src/main.cpp:1003-1020 | reading a 0xA4 frame back recovers the motor id, the target and the speed limit |
| CanCodec.MultiTurnAngle | firmware/src/main.cpp:1055-1067 | bytes 1-6 read as a signed 48-bit value in [-2^47, 2^47), negative exactly when bit 7 of byte 6 is set |
| CanCodec.MultiTurnRoundTrip | firmware/src/main.cpp:1055-1067 | every angle in the signed 48-bit range comes back exactly from its reply |
| CanCodec.MultiTurnIgnoresLastByte | firmware/src/main.cpp:1055-1067 | byte 7 of a 0x92 reply does not affect the angle |
| CanCodec.DecodeStatus1 | firmware/src/main.cpp:1122-1128 | temperature is byte 1 read as a signed byte; voltage and current are the little-endian 16-bit values of bytes 2-3 and 4-5; the motor and error states are bytes 6 and 7 |
| CanCodec.EncodeStatus1 | firmware/src/main.cpp:1122-1128 | the motor's 0x9A reply laid out as the firmware reads it: byte 1 reads back as the signed temperature, bytes 2-3 and 4-5 as the voltage and current, bytes 6 and 7 are the states |
| CanCodec.Status1RoundTrip | firmware/src/main.cpp:1122-1128 | every in-range status, laid out as a 0x9A reply, decodes back to itself |
| CanCodec.DecodeStatus2 | firmware/src/main.cpp:1140-1146 | temperature is byte 1 read as a signed byte; iq and speed are the little-endian bytes 2-3 and 4-5 read as signed 16-bit values; the encoder is bytes 6-7 as an unsigned 16-bit value |
| CanCodec.EncodeStatus2 | firmware/src/main.cpp:1140-1146 | the motor's 0x9C reply laid out as the firmware reads it: byte 1 reads back as the temperature, bytes 2-3 and 4-5 hold iq and speed in two's complement, bytes 6-7 the encoder |
| CanCodec.Status2RoundTrip | firmware/src/main.cpp:1140-1146 | every in-range 0x9C status decodes back from its wire bytes unchanged |
| CanCodec.Route | firmware/src/main.cpp:1033-1050 | a frame is acted on exactly when its id is in [0x140, 0x140+33), its motor is 1 or 2, and its command is 0x92, 0x9A or 0x9C; it carries that reply's decoding |
| CanCodec.ApplyReply | firmware/src/main.cpp:1050-1151 | 0x92 sets the angle and update time; 0x9A sets temperature and states, with enabled exactly when the state byte is 0, and leaves everything else, including speed, iq and the update time; 0x9C sets temperature, speed, iq and update time |
| CanCodec.HandleCanMessage | firmware/src/main.cpp:1031-1148 | a routed reply updates only the addressed motor; any other frame changes nothing |
| CanCodec.Status2ReplyUpdatesAnkle | firmware/src/main.cpp:1140-1151 | an ankle 0x9C reply sets exactly the iq, speed and temperature it reported, plus the update time, and leaves the hip alone |
| Compliance.FactorOf | firmware/src/main.cpp:776-791 | each state's speed factor lies in [0, 1], and it is zero exactly for HOLD and FAULT_SAFE |
| Compliance.Initialize | firmware/src/main.cpp:649-657 | the first call starts in NORMAL with the timer idle and a consistent speed factor; later calls change nothing |
| Compliance.Tick | firmware/src/main.cpp:717-729 | an idle low-resistance timer starts now; a timer that has run for 250 ms steps down and goes idle; otherwise the state stays and the timer keeps running |
| Compliance.StepWith | firmware/src/main.cpp:647-798 | a fault forces FAULT_SAFE with factor 0 and the hold at the ankle; a cleared fault returns to NORMAL; below the hold condition, NORMAL moves to COMPLIANT exactly on the compliant condition and otherwise stays; NORMAL and COMPLIANT escalate to HOLD on the hold condition; HOLD steps down only to COMPLIANT, and a step down happens exactly on a quiet sample once the running timer is 250 ms old (HOLD to COMPLIANT, and COMPLIANT to NORMAL below the hold condition); state changes are recorded |
| Compliance.StepAsWritten | firmware/src/main.cpp:714-737 | escalating from COMPLIANT to HOLD keeps a low-resistance timer that was already running |
| Compliance.Step | firmware/src/main.cpp:700-771 | corrected controller: HOLD or COMPLIANT is always entered with the low-resistance timer idle |
| Compliance.ResetFault | firmware/src/main.cpp:823-832 | from FAULT_SAFE it goes to NORMAL with factor 1 and an idle timer, recording FAULT_SAFE as the last state; in any other state it changes nothing |
| Compliance.SpeedFactor | firmware/src/main.cpp:805-807 | the factor of the current state, or 1 when uninitialised |
| Compliance.InitialWf | firmware/src/main.cpp:634-642 | the initial controller is consistent and does not slow the motor |
| Compliance.StepKeepsWf | firmware/src/main.cpp:647-798 | every step keeps the speed factor equal to the state's and in [0, 1], and keeps NORMAL's timer idle |
| Compliance.TimerMarksQuietRun | firmware/src/main.cpp:714-767 | while the corrected controller stays in COMPLIANT or HOLD, a running timer holds the time of the first sample of the current unbroken quiet run |
| Compliance.LeavesOnlyAfterQuietRun | firmware/src/main.cpp:700-771 | the corrected controller steps down from COMPLIANT or HOLD only after \|iq\| < 500 has held without a break, in that state, for at least 250 ms |
| Compliance.StaleTimerShortensHold | firmware/src/main.cpp:714-737 | as written, HOLD is left 150 ms after it was entered, on its first quiet sample; the corrected controller stays in HOLD |
| ThresholdWindow.MinOf | firmware/src/main.cpp:201-212 | a lower bound of every window sample |
| ThresholdWindow.MaxOf | firmware/src/main.cpp:201-212 | an upper bound of every window sample |
| ThresholdWindow.ExtremesAttained | firmware/src/main.cpp:201-212 | the minimum and maximum are samples of the window |
| ThresholdWindow.Amplitude | firmware/src/main.cpp:213-220 | the amplitude is the window's spread when that is at least 1°, and the 10° default otherwise |
| ThresholdWindow.Update | firmware/src/main.cpp:165-230 | the first call fills the window with the sample; later calls overwrite the oldest slot, advance the index mod 200, and set the mean of the window, the amplitude, the angle thresholds at 0.2 of it, and the fixed velocity thresholds |
| ThresholdWindow.MeanWithinWindow | firmware/src/main.cpp:194-198 | after every update the mean lies between the window's smallest and largest sample |
| ThresholdWindow.RotateKeepsSamples | firmware/src/main.cpp:185-186 | reading the circular window from the index on neither loses nor invents a sample |
| ThresholdWindow.RotateOverwrite | firmware/src/main.cpp:185-186 | overwriting the oldest slot and advancing the index drops the oldest sample and appends the new one |
| ThresholdWindow.WindowHoldsNewest | firmware/src/main.cpp:185-186 | after any number of updates, the window, read oldest first, holds exactly the newest 200 samples |
| ThresholdWindow.FirstSampleFillsWindow | firmware/src/main.cpp:169-186 | from the first sample on, the window is the newest 200 of that sample repeated followed by the later samples, and its sum is unaffected by rotation |
| GaitPhase.Step | firmware/src/main.cpp:257-329 | nothing happens before the signal chain is ready or when dt is 0; the first ready call starts in stance; later calls switch phase exactly when the condition holds and the accumulated hold time reaches 80 ms; while the condition holds without a switch the timer grows by the elapsed time (as a `uint32_t`); a switch restarts the phase clock and clears the timer; a failed condition clears it |
| GaitPhase.ConditionsExclusive | firmware/src/main.cpp:290-291 | with `V_dn <= V_up`, the swing and stance conditions never hold together |
| GaitPhase.TimerBoundedByHeldTime | firmware/src/main.cpp:294-326 | within one phase, the debounce timer never exceeds the time the switching condition has actually held without a break |
| GaitPhase.SwitchNeedsDebounce | firmware/src/main.cpp:294-326 | a phase switch needs the switching condition now, after it has held for at least 80 ms of sample time without a break |
| GaitPhase.TimerEqualsHeldTime | firmware/src/main.cpp:294-326 | within one phase, while no hold time reaches 2^32 ms, the debounce timer is exactly the time the switching condition has held without a break |
| GaitPhase.DebounceSwitches | firmware/src/main.cpp:294-326 | conversely, once the switching condition has held for 80 ms without a break, the detector switches phase |
| AnkleAssist.SmoothStep | firmware/src/main.cpp:488-499 | the S-curve maps into [0, 1]; it is 0 at and below 0 and 1 at and above 1 |
| AnkleAssist.SmoothStepMonotone | firmware/src/main.cpp:488-499 | the S-curve never decreases |
| AnkleAssist.SmoothStepSymmetric | firmware/src/main.cpp:488-499 | the S-curve is point-symmetric about its midpoint |
| AnkleAssist.Target | firmware/src/main.cpp:528-530 | the swing target lies in [2, 8], from 2 at the start of swing to 8 at its end |
| AnkleAssist.TargetRisesWithProgress | firmware/src/main.cpp:528-530 | later in the swing the target is never lower |
| AnkleAssist.Update | firmware/src/main.cpp:502-571 | outside swing the reference follows the ankle with factor 0; the first swing call enables assistance; while assisting, the reference is in [2, 15], never below a safe ankle, equal to an ankle already in [2, 15], and otherwise the larger of ankle and target, with an ankle above 15° held at 15; the factor is in [0, 1], 0 exactly from 2° up, 1 exactly at or below -15°, and (2 - ankle)/17 in between |
| AnkleAssist.AssistFadesAsAnkleRises | firmware/src/main.cpp:557-570 | a higher ankle never gets a larger assist factor |
| AnkleAssist.SetEnabled | firmware/src/main.cpp:588-593 | sets the flag and marks the strategy initialised; when disabled, swing calls follow the ankle with factor 0 |
| SwingOscillator.Start | firmware/src/main.cpp:1194-1218 | the swing starts active, heading up, centred on and at the read-back angle, with a target inside its range |
| SwingOscillator.Stop | firmware/src/main.cpp:1220-1223 | only the active flag is cleared |
| SwingOscillator.Advance | firmware/src/main.cpp:1239-1256 | the next target is one full 0.2° step from the current one in the current direction, or the range end when that step reaches or passes it; the direction turns exactly at the range ends |
| SwingOscillator.Update | firmware/src/main.cpp:1225-1266 | nothing happens while inactive or before the step interval; an amplitude of at most 0.01° stops the swing without a command; otherwise the target moves one full step in the current direction, stopping at the range end where the direction turns, and a command with speed 200 is sent exactly when it moved more than 0.01° |
| SwingOscillator.RunStaysInRange | firmware/src/main.cpp:1244-1256 | however long it runs, a swing with a usable amplitude never commands beyond its range ends |
| SwingOscillator.FirstStepGoesUp | firmware/src/main.cpp:1194-1256 | the first step after start commands one step above the centre |
| GaitRx.ScanFromSpec | firmware/src/main.cpp:1411-1433 | the scanning loop finds the first `{`, and stops at the first `}` where the brace count of the buffer so far returns to zero after a `{`; with no such `}`, the count is that of the whole buffer |
| GaitRx.Extract | firmware/src/main.cpp:1411-1437 | text is cut out exactly when such a closing `}` exists; it runs from the first `{` to the first `}` that brings the count back to zero |
| GaitRx.ExtractIsBalancedGroup | firmware/src/main.cpp:1411-1437 | unless a `}` precedes the first `{`, the cut text is one balanced brace group whose count first returns to zero at its end |
| GaitRx.StrayCloseCutsUnbalanced | firmware/src/main.cpp:1418-1428 | with a stray `}` first, `}{{}` yields the unbalanced text `{{}` |
| GaitRx.LoadFromJson | firmware/src/main.cpp:1326-1381 | loaded exactly when the parse succeeds, all three arrays are present, the 16-bit point count is 1..200, and both angle arrays have that many entries; a rejection leaves the trajectory; a load takes the first `pointCount` points; the duration is the given one when it is positive, the last time when it is missing or not positive and there are at least two points, and otherwise the given value (0 when missing) |
| GaitRx.AcceptedArraysAgree | firmware/src/main.cpp:1346-1355 | an accepted document's arrays have equal length, between 1 and 200, and every entry is loaded |
| GaitRx.PointCountWraps | firmware/src/main.cpp:1346-1355 | the point count is a `uint16_t`: 65537 times with one hip and one ankle value pass the checks |
| GaitRx.Start | firmware/src/main.cpp:1383-1390 | receiving, with an empty buffer and the start time set |
| GaitRx.Stop | firmware/src/main.cpp:1392-1395 | not receiving, with an empty buffer |
| GaitRx.Process | firmware/src/main.cpp:1398-1445 | lines are ignored when not receiving; after more than 5000 ms the session ends without loading; otherwise the line is appended and the session keeps waiting exactly when no complete object exists; a complete object is loaded and the session ends either way; the trajectory changes only on a successful load |
| GaitRx.SplitObjectSameResult | firmware/src/main.cpp:1409-1437 | an object split over two lines gives the same result as the two lines joined into one |
| GaitRx.LateLineEndsSession | firmware/src/main.cpp:1402-1406 | once more than 5000 ms have passed, the next line ends the session and loads nothing, whatever was buffered |

## Left out

- Serial, CAN and file I/O are not modelled, nor are `delay`, printing, threads or the `queue.Queue` handoff. A read is a text chunk; the sample queue is a FIFO sequence; a file is an `Option` of its series; a sent frame is the `Frame` value built.
- JSON decoding is a parameter (`json.loads`, ArduinoJson). Every JSON value is a real. Non-numeric values and ArduinoJson's 16 KB document capacity are not modelled.
- Whitespace is six ASCII characters: space, `\t`, `\n`, `\r`, `\v` and `\f`. Python's other Unicode whitespace is not modelled.
- The `errors='ignore'` UTF-8 decoding of each read is not modelled: a read is already text. Decoding every read on its own can drop a multi-byte character split across two reads, which the `ReadTwice` lemmas do not cover.
- Floating point is modelled by reals. This covers the single-precision rounding of every firmware `float` and Python's float timestamps.
- `angleDegToUnits`, `unitsToAngleDeg` and `jointSpeedToMotorSpeed` are not modelled. These are float-to-integer conversions, so the position commands take the `int32` target directly.
- The hip signal processor (`updateHipSignalProcessor`) and `updateSwingProgress` are not modelled; their outputs are the `GaitPhase.Signals` fields and arguments.
- The assist factor's fallback for a near-zero denominator is not modelled: the constant denominator is 17, so that branch is dead.
- `getRawData`, the getters (`getCurrentGaitPhase`, `getComplianceHoldPosition`, `getComplianceStateDuration`, `getAnkleReferenceAngle` and the like), and `getCurrentPhaseDurationMs` are not modelled; they only read fields.
- `enableMotor`, `disableMotor`, `stopMotor` and `clearMotorError` are not modelled: they send fixed query-like frames (`CanCodec.CommandFrame` covers the layout) and update status flags.
- The processing chain that `handleCanMessage` runs after a hip 0x92 reply is left out of `CanCodec.HandleCanMessage`. That chain is the hip signal processor, the threshold, the phase detector and the assist strategy. The modules for each link state it separately.
- The ankle zero offset and the angle in degrees kept per motor are not modelled.
- Unknown frames are only printed in the source. `CanCodec.HandleCanMessage` models them as changing nothing.
- `startSwing` reads the joint angle back over CAN after a 1 s delay. `SwingOscillator.Start` takes that angle as a parameter.
- Whether `motor` is set is a `hasMotor` flag, and the swing's sent command is a `Command` value.
- The GUI collector's `is_loaded_data` flag is not modelled: it only steers plotting.
- `processSerialCommand`'s trimming of incoming lines is not modelled. `GaitRx.Process` receives the already-trimmed line, and never an empty one, since `processSerialCommand` returns on an empty line before dispatching it.
- The wall-clock `timestamp` field of a saved cycle document is not modelled.
- CycleRecords.CycleDoc: the document carries only the three series; the `cycle_duration` and `data_points` fields are not carried, since neither load stores them in the collector's state (the earlier collector only prints `cycle_duration`).
- Compliance.Step: the `iq` argument is an unbounded integer rather than an `int16_t`, and the temperature is not restricted to `int8_t`.
- The mean in `updateAdaptiveThreshold` divides by `windowCount`, which is always 200 once initialised. `ThresholdWindow.Update` states it over the whole window.
- Clock.ElapsedAcrossWrap: measures a single distance below 2^32; elapsed times of a full period or more are not meaningful on the firmware's counter, so none is stated.

## Findings

| source | as written | input that shows it | evidently intended | confidence | as-written member | corrected member |
|---|---|---|---|---|---|---|
| firmware/src/main.cpp:714-737 | escalating from COMPLIANT to HOLD keeps `lowResistanceStartMs`, so a timer started in COMPLIANT keeps running in HOLD | in COMPLIANT with the timer started at 100 ms: \|iq\| = 2000 at 200 ms enters HOLD, and \|iq\| = 0 at 350 ms leaves it for COMPLIANT, after one quiet sample and 150 ms | HOLD is left only after \|iq\| < 500 has persisted for 250 ms while in HOLD, so the timer is cleared on entering HOLD | not executed | Compliance.StaleTimerShortensHold | Compliance.LeavesOnlyAfterQuietRun |
| pc/gait_data_collector_gui.py:474-478 | each loop pass appends the timestamp before indexing the hip and ankle series, so a short angle series raises after a partial append | a file with `time` [0.0, 0.01], `hip_angle` [1.0] and `ankle_angle` [1.0, 2.0] leaves two timestamps, one hip angle and one ankle angle | a failed load leaves the buffers in lock-step (lengths checked before clearing) | not executed | GuiCollector.LoadAsWrittenBreaksLockStep | GuiCollector.LoadRealtimeData |

The compliance finding is modelled in two halves:

- `Compliance.StepAsWritten` is the controller as written, and `Compliance.StaleTimerShortensHold` exhibits the input above.
- `Compliance.Step` is the corrected controller. It clears the timer on escalation, and `Compliance.LeavesOnlyAfterQuietRun` proves the intended hold discipline for it.

The load finding is modelled in two halves:

- `GuiCollector.LoadRealtimeDataAsWritten` is the load as written, and `GuiCollector.LoadAsWrittenBreaksLockStep` exhibits the input above.
- `GuiCollector.LoadRealtimeData` is the corrected load, which checks lengths first. It keeps the buffers in lock-step.
