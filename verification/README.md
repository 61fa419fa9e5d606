# Verification of an industrial monitoring gateway, its Modbus node and its backend

This project models, in Dafny, the parts of the system where a wrong step loses data or misreports a machine,
and proves what those parts promise.

- **Durable offline queue** (`Crc32`, `Fifo`, `OfflineQueue`, `QueueImage`, `GatewayStorage`, `QueueRecovery`,
  `GatewayRuns`, `StoreContents`, `StoredDamage`). The gateway keeps a bounded drop-oldest ring of records in
  non-volatile storage: one blob per slot, a generation-stamped metadata blob, and a one-entry journal. Single writes and
  erases of the store are atomic, memory is volatile, and the supply may fail before any write, during recovery too.
  `GatewayStorage` is the imperative code against such a store; `QueueRecovery` is the machine of all runs; `GatewayRuns`
  shows that the code follows the machine. The checksums tell damaged structures from whole ones, and a load copes with
  both.
- **Sequence numbers, replay and storage** (`SequenceNumbers`, `ReplayLoop`, `DurableReplay`, `Ingestion`,
  `DeviceRecords`, `EndToEnd`). Numbers reserved in blocks of 256, two tasks sharing the durable ring while the supply may
  fail inside any call, and the backend's idempotent insert by sessions that may overlap: an at-least-once sender with a
  deduplicating receiver, and what the backend's tables then say of each device.
- **Modbus RTU node** (`Crc16`, `ModbusNode`, `PythonCrc`, `PythonNode`, `ModbusProperties`, `ModbusAnswers`,
  `ModbusRuns`, `SimulatorScenarios`). The firmware's byte-level handler, the simulator's handler with its fault
  scenarios, the CRC algebra behind both, and their agreement byte for byte. The frame check is that of section 2.5.1 of
  the MODBUS over Serial Line Specification and Implementation Guide V1.02, the functions and exceptions those of sections
  6.3, 6.6 and 7 of the MODBUS Application Protocol Specification V1.1b3.
- **Threshold alarms** (`Thresholds`, `CloudAlarms`, `AlarmAgreement`). The firmware's three-state hysteresis machine,
  the backend's alarm rows, the readings each side takes from the same windows, and exactly when the two agree.
- **Sample windows** (`SampleWindow`). Means, peak, RMS, crest factor and quality of the samples of a window, and how the
  configuration limits keep them in the ranges the telemetry contract accepts.
- **Features and scoring** (`Features`, `Scoring`, `BatchContext`, `ScoredRows`). Causal rolling windows, and the worker
  that scores in batches of 500 rows with 11 rows of context.
- **Relay** (`CommandTime`, `Relay`, `RelayCommands`). Timed commands, automatic switch-off, loss of the network and the reboot guard,
  interleaved step by step.
- **Report text** (`LineWrap`). The greedy line wrapper.

Code that changes state in place is modelled by classes and methods with the source's branches and loops, each proved
equal to a function of the old state; the promises are then proved about those functions and about all runs of them.
Measured values are reals; `uint8`, `uint16`, `uint32` and `uint64` wrap-around is written out where the code relies on it.

Some promises that the documentation or the contracts suggest do not hold of the code. Each comes with an input that
breaks it and with the exact condition under which it holds:

- An RMS above the contract's 2000 is possible (`SampleWindow.RmsMayExceedContract`). It stays within 2000 exactly when the
  accepted squares add up to at most four million each (`SampleWindow.RmsMeetsContract`), and for all windows exactly if
  samples above 2000 were not accepted (`SampleWindow.LargestSafeLimit`).
- Firmware and backend can disagree on an active alarm, because the firmware skips a window with one bad sample and the
  backend judges its mean (`AlarmAgreement.PartialWindowDivides`). They agree throughout a run exactly when every value
  that only one side judges leaves the alarm as it is (`CloudAlarms.FirmwareAndCloudAgree`).
- Their severities can differ even on the same readings (`CloudAlarms.SeverityMayDiffer`), and agree throughout a run
  exactly when no reading falls where leaving the critical level divides them (`CloudAlarms.SeveritiesAgree`).
- A push that overflows the ring between a record's publication and its pop makes the pop remove another record
  (`ReplayLoop.RaceLosesRecord`); with distinct records, a run loses nothing exactly when this does not happen
  (`ReplayLoop.AtLeastOnceExactly`).
- Two backend sessions that first meet a device together store one of their messages only
  (`Ingestion.OverlapLosesMessage`); a message is stored exactly when one of its deliveries overlapped no such first
  contact (`Ingestion.StoredExactly`).
- Sequence numbers can repeat, because a block is reserved above zero when the stored mark cannot be read
  (`SequenceNumbers.UnreadMarkRepeats` has two such runs). They grow throughout a run exactly when each such reservation
  is the first to issue a number, or is cut short while all issued numbers are in the first block
  (`SequenceNumbers.NumbersGrowExactly`).
- A batch can miss a row that was received late (`BatchContext.LateRowIsMissed`). It shows a target the same last twelve
  samples as the whole history exactly when no sample outside the batch's context comes among them
  (`BatchContext.SameTwelve`), and then scores it alike (`BatchContext.UntouchedEqualsWhole`).
- A store with damaged metadata and a valid journal of another generation never loads again
  (`StoreContents.ErrorStays`); every other store does, however damaged, and is consistent from then on
  (`StoreContents.LoadHeals`).
- The simulator's node answers writes, and counts frames that are not 8 bytes long, differently from the firmware's, and
  agrees with it on all other frames (`ModbusProperties.AgreementIsExact`).

## Model

| member | source | states |
|---|---|---|
| `Fifo.RunKeepsLatest` | firmware/shared/src/iiot_core.c:267-305 | over every operation list a bounded drop-oldest queue holds the last pushed records in push order, and pushes = pops + dropped + held |
| `OfflineQueue.RunRefines` | firmware/shared/src/iiot_core.c:267-305 | the modular ring is that queue over every operation list, its drop counter modulo 2^32 |
| `OfflineQueue.Buffer.Init` | firmware/shared/src/iiot_core.c:267-272 | initialisation clears the ring and replaces capacity 0 or one above the maximum by the maximum |
| `OfflineQueue.Buffer.Push` | firmware/shared/src/iiot_core.c:274-287 | a push changes the ring as specified and reports whether it dropped the oldest record |
| `OfflineQueue.Buffer.Peek` | firmware/shared/src/iiot_core.c:289-296 | a peek shows the oldest record, or nothing |
| `OfflineQueue.Buffer.Pop` | firmware/shared/src/iiot_core.c:298-305 | a pop returns the oldest record and removes it, or does nothing |
| `Crc32.Compute` | firmware/shared/src/iiot_core.c:43-54 | the loop computes the reflected CRC-32 of any byte string, given as a bitwise register function |
| `Crc32.ShiftFed` | firmware/shared/src/iiot_core.c:49-50 | a bit step with a low bit of one feeds the polynomial 0xEDB88320 back |
| `Crc32.ShiftUnfed` | firmware/shared/src/iiot_core.c:49-50 | with a low bit of zero it only shifts |
| `Crc32.ChangeDetected` | firmware/shared/src/iiot_core.c:43-54 | data of any length that differ only within four adjacent bytes have different checksums |
| `Crc32.ZeroByte` | firmware/shared/src/iiot_core.c:43-54 | a known answer: the checksum of one zero byte is 0xD202EF8D |
| `QueueImage.Describe` | firmware/esp32-gateway/main/gateway_platform.c:73-86 | metadata written for a valid ring passes every check of the next load |
| `QueueImage.Announce` | firmware/esp32-gateway/main/gateway_platform.c:94-102 | a journal entry as written passes the load's check |
| `StoredDamage.DamagedMetadata` | firmware/esp32-gateway/main/gateway_platform.c:294-299 | metadata with a changed generation, drop counter or positions are refused under the old checksum |
| `StoredDamage.DamagedJournal` | firmware/esp32-gateway/main/gateway_platform.c:328-335 | so is a journal entry with a changed generation, or a record changed within four adjacent bytes |
| `StoredDamage.DamagedConfig` | firmware/shared/src/modbus_node.c:53-61 | so is a node configuration with a changed generation, address or calibration |
| `GatewayStorage.Storage.SaveQueueMetadata` | firmware/esp32-gateway/main/gateway_platform.c:73-86 | one write, describing the ring and generation in memory; it fails exactly without power |
| `GatewayStorage.Storage.PersistEnqueuedRecord` | firmware/esp32-gateway/main/gateway_platform.c:104-117 | the slot is written before the metadata, and on success memory holds the pushed ring and the next generation |
| `GatewayStorage.Storage.OfflinePush` | firmware/esp32-gateway/main/gateway_platform.c:349-362 | wherever the supply fails, the store has taken a prefix of journal, slot, metadata, journal erase, in that order; success means all four |
| `GatewayStorage.Storage.OfflinePop` | firmware/esp32-gateway/main/gateway_platform.c:364-384 | a pop whose metadata write fails changes nothing in ring, generation or store; otherwise metadata, then slot erase |
| `GatewayStorage.Storage.ReadSlots` | firmware/esp32-gateway/main/gateway_platform.c:304-320 | the slot loop succeeds exactly when every live slot is present, and then memory holds the stored ring |
| `GatewayStorage.Storage.OfflineLoad` | firmware/esp32-gateway/main/gateway_platform.c:291-347 | a load performs a prefix of the planned recovery writes, and completing it restores the planned ring and generation |
| `QueueRecovery.SetSlotStage` | firmware/esp32-gateway/main/gateway_platform.c:104-117 | overwriting a full ring's head slot before the metadata is written does not change what recovery gives |
| `QueueRecovery.ResolvePrefix` | firmware/esp32-gateway/main/gateway_platform.c:322-347 | cut short anywhere, the recovery of a journalled record leaves a store that recovers to the same ring |
| `QueueRecovery.LoadOfRecoverable` | firmware/esp32-gateway/main/gateway_platform.c:291-347 | after first boot no load reaches the reset, missing-slot, invalid-journal or generation-mismatch branch |
| `QueueRecovery.StepKeeps` | firmware/esp32-gateway/main/gateway_platform.c:291-384 | each push, pop and boot, interrupted or not, keeps the recovery invariant and acts on the recoverable ring as the queue operation it made durable |
| `QueueRecovery.RunKeeps` | firmware/esp32-gateway/main/gateway_platform.c:291-384 | the same over every run |
| `QueueRecovery.FirstBoot` | firmware/esp32-gateway/main/gateway_platform.c:291-302 | an empty store becomes an empty queue at its first powered write, or stays empty |
| `QueueRecovery.CrashAtomicPush` | firmware/esp32-gateway/main/gateway_platform.c:349-362 | a push interrupted before any write, followed by any number of interrupted recoveries, loads as the old ring (no write happened) or the ring with the record appended |
| `QueueRecovery.CrashAtomicPop` | firmware/esp32-gateway/main/gateway_platform.c:364-384 | likewise for a pop: the old ring, or the ring without its oldest record |
| `QueueRecovery.DurableQueueConserves` | firmware/esp32-gateway/main/gateway_platform.c:291-384 | over every run from an empty store, durable pushes = pops + dropped + held, and the held records are the latest in push order, no more than a configured capacity of 1 to 32 |
| `QueueRecovery.GenerationCounts` | firmware/esp32-gateway/main/gateway_platform.c:104-117 | over every run, interrupted or not, the generation that a load restores counts the durable operations, modulo 2^32 |
| `StoreContents.StoreHoldsLiveSlots` | firmware/esp32-gateway/main/gateway_platform.c:349-384 | over every run without an interrupted push or pop the store holds exactly the live slots and no journal: popped records are gone |
| `StoreContents.LoadHeals` | firmware/esp32-gateway/main/gateway_platform.c:291-347 | a load of any store, however damaged, that ends without an error leaves it consistent with the ring it restored: the stored one, or an empty one if metadata or live slots are damaged, with the journalled record if it belongs there; it ends in an error exactly if the journal belongs to another generation and no live slot is missing |
| `StoreContents.ErrorStays` | firmware/esp32-gateway/main/gateway_platform.c:341-344 | after such an error every further boot ends in it again |
| `StoreContents.AnyStoreRecovers` | firmware/esp32-gateway/main/gateway_platform.c:291-384 | from any store, after a first load without error, every run of pushes, pops, failures and boots acts on the restored ring as the queue does |
| `GatewayRuns.Replay` | firmware/esp32-gateway/main/gateway_platform.c:291-384 | the storage code driven through any run of pushes, pops, failures and boots leaves the store and memory of the recovery machine |
| `SequenceNumbers.Allocator.NextSequence` | firmware/esp32-gateway/main/gateway_platform.c:386-399 | the call reserves 256 numbers when the block is exhausted, above the stored mark or above zero if that could not be read, and issues the next; cut short it issues none |
| `SequenceNumbers.RunSound` | firmware/esp32-gateway/main/gateway_platform.c:386-399 | over any calls, failures, reboots and failing reads, until 2^56 events bring the 64-bit mark to its end, the block in memory ends at the stored mark, and each reserved number is issued, left or lost to one of the resets |
| `SequenceNumbers.NumbersGrowExactly` | firmware/esp32-gateway/main/gateway_platform.c:386-399 | after every prefix of a run the issued numbers increase and lie below the next one if and only if every event is harmless: it reserves nothing above an unread mark, or is the first call to issue a number, or is cut after the reservation with all numbers in the first block |
| `SequenceNumbers.ReadableRunsGrow` | firmware/esp32-gateway/main/gateway_platform.c:386-399 | so they strictly increase over all calls, failures and reboots while the mark can be read |
| `SequenceNumbers.GrowsBelowMark` | firmware/esp32-gateway/main/gateway_platform.c:386-399 | numbers that grow never exceed the stored mark |
| `SequenceNumbers.UnreadMarkRepeats` | firmware/esp32-gateway/main/gateway_platform.c:388-391 | two runs issue a number twice: one after a mark that was not read, one after a cut call that thereby lowered it |
| `SequenceNumbers.IssueAdvances` | firmware/esp32-gateway/main/gateway_platform.c:386-399 | in every run a completed call moves the next number up by exactly one from the one it issued |
| `SequenceNumbers.ResetSkips` | firmware/esp32-gateway/main/gateway_platform.c:386-399 | a reboot or cut call that reserves nothing above an unread mark never moves the next number back and skips at most 256 |
| `SequenceNumbers.ReservationsBounded` | firmware/esp32-gateway/main/gateway_platform.c:386-399 | in every run store writes number at most issued / 256 + boots |
| `ReplayLoop.PushAllKeepsLatest` | firmware/shared/src/iiot_core.c:274-287 | pushing a list drops exactly the overflow from the front and counts it |
| `ReplayLoop.PopTakes` | firmware/esp32-gateway/main/app_main.c:438-458 | with pushes between peek and pop the pop removes record max(0, held + pushed - capacity) of the two lists joined, so it is the published one if and only if nothing was dropped in between |
| `ReplayLoop.RunAccounts` | firmware/esp32-gateway/main/app_main.c:413-458 | in every interleaving of the two tasks each pushed record is held, popped or dropped, as multisets |
| `ReplayLoop.RaceIsTheOnlyLoss` | firmware/esp32-gateway/main/app_main.c:438-458 | with distinct records, every popped record had been taken by the publish call if and only if no overflow came between a peek and its pop |
| `ReplayLoop.AtLeastOnceExactly` | firmware/esp32-gateway/main/app_main.c:413-473 | and if and only if every pushed record is held, was taken by the publish call, or is in the dropped count |
| `DurableReplay.RunFollows` | firmware/esp32-gateway/main/app_main.c:413-473 | over the durable ring, with the supply failing inside any push, pop or recovery, the gateway goes through a run of the replay loop in which the interrupted call happened wholly or not at all |
| `ReplayLoop.RaceLosesRecord` | firmware/esp32-gateway/main/app_main.c:438-458 | a concrete run with an overflow between publish and pop loses a record nobody took and nobody counted |
| `Ingestion.Database.ApplyMetricAlarm` | services/api/app/ingestion.py:42-94 | finding, raising, escalating and clearing the alarm row changes the alarms as specified |
| `Ingestion.Database.ApplyThresholdAlarms` | services/api/app/ingestion.py:97-136 | a session that does not see the device's limits adds them and writes its rows, which fails if a key is taken; otherwise the three metrics are applied in order under the limits |
| `Ingestion.Database.PersistTelemetry` | services/api/app/ingestion.py:139-217 | duplicate, collision, wrong site, a taken key before or at the commit with rollback, and insertion, as specified, for a session that may not see the newest rows, the device or its limits |
| `Ingestion.Database.UpdateThresholds` | services/api/app/main.py:680-705 | an operator's limits replace those of an existing device |
| `Ingestion.PersistKeepsKeys` | services/api/app/models.py:114-121 | message ids and (device, sequence) pairs stay unique, and only an insertion changes the tables |
| `Ingestion.RunStores` | services/api/app/ingestion.py:139-217 | over any deliveries and limit changes keys stay unique, every stored row came, and devices are at a site one of their deliveries named |
| `Ingestion.StepOutcome` | services/api/app/ingestion.py:139-217 | a faithful delivery is stored, recognised or fails on a key, and exactly when each of these happens |
| `Ingestion.StoredExactly` | services/api/app/ingestion.py:139-217 | over every run of faithful deliveries a message is stored if and only if one of its deliveries came in a session that overlapped no other's first contact with the device |
| `Ingestion.ExactlyOnce` | services/api/app/ingestion.py:139-217 | with repeats, in any order and by overlapping sessions, each stored id is in one row, and all delivered ids are stored if and only if each has a delivery that overlaps no first contact |
| `Ingestion.KnownDevicesLand` | services/api/app/ingestion.py:139-217 | sessions that see devices and limits once they exist store exactly the delivered ids |
| `Ingestion.OverlapLosesMessage` | services/api/app/ingestion.py:99-102 | two sessions that first meet a device together store one message; the other fails and is not stored |
| `Ingestion.RedeliveryIsIdempotent` | services/api/app/ingestion.py:139-217 | a redelivery, overlapping or not, leaves rows, alarms, limits and devices unchanged, and is reported as a duplicate unless its session sees neither the message nor the limits |
| `Ingestion.RunKeepsSingleAlarms` | services/api/app/ingestion.py:42-94 | ingestion never holds two active alarms for one device and code, whatever limits operators set in between |
| `Ingestion.StoredReadingMovesAlarms` | services/api/app/ingestion.py:97-136 | a stored reading moves each of its three alarms by that metric's hysteresis rule alone |
| `DeviceRecords.SeeingSession` | services/api/app/ingestion.py:139-217 | a session that sees every committed row, device and limits reports a duplicate, a collision, a wrong site or an insertion exactly when each is the case |
| `DeviceRecords.InsertionShows` | services/api/app/ingestion.py:165-200 | an insertion adds one row and sets its device online exactly for good quality, with the firmware version, faults and time of the delivery; records, limits and alarm rows of all other devices stay as they are |
| `DeviceRecords.RecordShowsLastRow` | services/api/app/ingestion.py:165-200 | over every run a device is known exactly if a row of it is stored, and its record shows what its last stored row reported |
| `DeviceRecords.LimitsAreChosen` | services/api/app/main.py:680-705 | over every run the limits of a device are those an operator chose last since it was known |
| `DeviceRecords.ChoiceStays` | services/api/app/main.py:680-705 | limits set for a known device stay chosen until they are set again |
| `DeviceRecords.NeverChosen` | services/api/app/models.py:100-106 | without a choice they are 65 and 75, 4.5 and 7, 1.4 and 1.8, with 5 percent hysteresis |
| `DeviceRecords.JudgedByChosen` | services/api/app/ingestion.py:97-136 | the next stored reading moves the three alarms by the limits chosen last |
| `DeviceRecords.RunLives` | services/api/app/ingestion.py:42-94 | over every run each alarm row was opened by a stored reading of its device, and is active or was cleared by such a reading, no earlier |
| `EndToEnd.NumberedIsFaithful` | firmware/esp32-gateway/main/app_main.c:371-376 | readings numbered by allocators in whose runs the numbers grow make message ids and (device, sequence) pairs one-to-one |
| `EndToEnd.NothingLostNothingTwice` | firmware/esp32-gateway/main/app_main.c:434-473 | over every run with power failures inside any call and no pop behind an overflow, with readings so numbered: each durable reading has exactly one row, which holds it up to the replay mark, or is in the queue the next load restores, or among the dropped ones that the stored counter counts |
| `Thresholds.AlarmRule` | firmware/shared/src/iiot_core.c:231-258 | the three-state machine is in alarm exactly at the warning level, or inside the hysteresis band when it was in alarm |
| `Thresholds.CriticalClearsHigher` | firmware/shared/src/iiot_core.c:231-258 | with valid limits critical is left no lower than warning |
| `Thresholds.ChatterBound` | firmware/shared/src/iiot_core.c:231-258 | k entries into alarm cost a total variation of at least 2(k-1) times the band |
| `Thresholds.ChatterBoundSharp` | firmware/shared/src/iiot_core.c:231-258 | the bound is the best possible: readings reach it up to any margin |
| `CloudAlarms.MetricStep` | services/api/app/ingestion.py:42-94 | one reading keeps at most one active alarm and activates or clears it by the firmware's rule |
| `CloudAlarms.MetricFrame` | services/api/app/ingestion.py:42-94 | a reading leaves the alarms of every other device and code as they were |
| `CloudAlarms.MetricKeepsOne` | services/api/app/ingestion.py:42-94 | one reading keeps at most one active alarm, whatever the limits |
| `CloudAlarms.FirmwareAndCloudAgree` | services/api/app/ingestion.py:42-94 | firmware and backend agree on "alarm active" after every window of a run if and only if each value that only one of them judges raises no alarm where there is none and clears none where there is one |
| `CloudAlarms.SeverityStep` | services/api/app/ingestion.py:62-94 | the severity of the active row follows its own rule, whatever other rows there are |
| `CloudAlarms.SeveritiesAgree` | services/api/app/ingestion.py:62-94 | the severities agree after every window of a run if and only if no reading meets the state in which it divides the two sides |
| `CloudAlarms.SeverityMayDiffer` | services/api/app/ingestion.py:72-87 | after a reading at the critical level, every reading in the dividing bands leaves the severities different |
| `AlarmAgreement.Aggregate` | firmware/esp32-gateway/main/app_main.c:352-426 | the aggregation task sends the measurements of consecutive windows and keeps the three threshold states of the readings it judges |
| `AlarmAgreement.JudgedReadings` | firmware/esp32-gateway/main/app_main.c:389-397 | from a window of validated timing the firmware judges a channel's mean, or RMS, exactly if all its samples were accepted, and the backend every such value exactly if RMS is within 2000 |
| `AlarmAgreement.OneOutsideRefusesAll` | services/api/app/schemas.py:44-51 | one value outside its published range keeps the backend from judging any |
| `AlarmAgreement.SidesDifferOnPartialWindows` | firmware/esp32-gateway/main/app_main.c:389-397 | from a window that meets the contract both sides take the same reading if and only if the channel's samples were all accepted or none was |
| `AlarmAgreement.WindowsAgree` | firmware/esp32-gateway/main/app_main.c:389-397 | the conditions for agreement on alarm and severity, for the readings of every sequence of windows |
| `AlarmAgreement.WholeWindowsAgree` | firmware/esp32-gateway/main/app_main.c:389-397 | windows whose channel was accepted wholly or not at all keep both sides in agreement on the alarm, after every window |
| `AlarmAgreement.PartialWindowDivides` | firmware/esp32-gateway/main/app_main.c:389-397 | one missing sample beside one at the warning level leaves the firmware normal and the backend's alarm active |
| `SampleWindow.ValidCounts` | firmware/shared/src/iiot_core.c:156-202 | the valid count is the number of accepted readings, and status is good exactly when all were |
| `SampleWindow.SumBetween` | firmware/shared/src/iiot_core.c:156-194 | a channel's sum lies between valid times its lower and upper bound |
| `SampleWindow.PeakBoundsSquares` | firmware/shared/src/iiot_core.c:156-194 | peak^2 <= sum of squares <= valid times peak^2 |
| `SampleWindow.Window.Add` | firmware/shared/src/iiot_core.c:156-194 | adding one sample to a window of any samples gives the window of one more |
| `SampleWindow.Window.Finish` | firmware/shared/src/iiot_core.c:204-229 | finishing computes means, RMS, peak, crest factor and qualities of the window gathered so far |
| `SampleWindow.WindowMeasures` | firmware/shared/src/iiot_core.c:156-229 | whatever samples a window is given: mean times number is the sum of the accepted readings, number times squared RMS the sum of their squares, the peak is the magnitude of one of them and none is larger, the crest factor is their ratio; the quality has the number accepted and the worst status among the rejected, an unacceptable good reading counting as out of range |
| `SampleWindow.ExpectedSamples` | firmware/shared/src/iiot_core.c:107-113 | validated timing gives between 1 and 6000 samples a window |
| `SampleWindow.RmsBounds` | firmware/shared/src/iiot_core.c:204-229 | RMS <= peak and peak^2 <= valid times RMS^2 |
| `SampleWindow.CrestBounds` | firmware/shared/src/iiot_core.c:204-229 | with at most 6000 samples a crest factor lies in [1, 78] |
| `SampleWindow.WindowMeetsContract` | services/api/app/schemas.py:44-51 | for every window of samples under validated timing, means, peak and crest factor lie in the accepted ranges, the peak-below-RMS rule cannot fire, and status is good exactly when every sample was accepted |
| `SampleWindow.VibrationContract` | services/anomaly_worker/sensor_rules.py:61-72 | the vibration part of it, whatever the samples |
| `SampleWindow.RmsMeetsContract` | services/api/app/schemas.py:48-48 | for every window under validated timing RMS is at most 2000 if and only if the accepted squares add up to at most 4,000,000 times their number; a peak of at most 2000 suffices |
| `SampleWindow.LargestSafeLimit` | firmware/shared/src/iiot_core.c:181-182 | every window meets the RMS bound if and only if samples are accepted up to at most 2000; the code accepts up to 4000 |
| `SampleWindow.RmsMayExceedContract` | services/api/app/schemas.py:48-48 | any single accepted sample above 2000 gives an RMS above 2000 with good status |
| `Crc16.Compute` | firmware/shared/src/modbus_node.c:24-33 | the nested loops compute the checksum function for any length |
| `Crc16.BitStepIsWire` | firmware/shared/src/modbus_node.c:28-30 | the conditional shift is one linear map on 16-bit states |
| `Crc16.StepBijective` | firmware/shared/src/modbus_node.c:24-33 | the byte step is a bijection on states, with its inverse |
| `Crc16.WiresLinear` | firmware/shared/src/modbus_node.c:24-33 | any number of bit steps is linear over exclusive or |
| `Crc16.Residue` | firmware/shared/src/modbus_node.c:218-224 | a frame's trailer is its checksum if and only if the checksum over the whole frame is zero |
| `Crc16.SealValid` | firmware/shared/src/modbus_node.c:18-22 | a frame is valid if and only if it is its payload with the checksum appended, low byte first |
| `Crc16.BurstDetected` | firmware/shared/src/modbus_node.c:24-33 | frames of any equal length that differ only within a burst of 16 bits have different checksums |
| `Crc16.BurstNeverBothValid` | firmware/shared/src/modbus_node.c:218-224 | such frames are never both valid |
| `Crc16.AdjacentBytesNeverBothValid` | firmware/shared/src/modbus_node.c:218-224 | two frames that differ only in two adjacent bytes are never both valid |
| `Crc16.ValidIsEven` | firmware/shared/src/modbus_node.c:218-224 | a valid frame has an even number of ones, because the polynomial has the factor x + 1 |
| `Crc16.OddErrorsNeverBothValid` | firmware/shared/src/modbus_node.c:218-224 | two frames of any one length that differ in an odd number of bits, wherever they are, are never both valid |
| `Crc16.ZeroByte` | firmware/shared/src/modbus_node.c:24-35 | a known answer: the checksum of one zero byte is 0x40BF |
| `ModbusNode.Node.constructor` | firmware/shared/src/modbus_node.c:63-74 | a node starts from a valid image, or from defaults with the fallback fault set if the image is invalid or missing |
| `ModbusProperties.MeasurementIsRead` | firmware/shared/src/modbus_node.c:76-107 | after a measurement the registers show its status, raw value, signed temperature and 32-bit counters, and no other register changed but the flags, whose bit 0 stays set |
| `ModbusProperties.FallbackIsBitOr` | firmware/shared/src/modbus_node.c:83-83 | keeping bit 0 is the bitwise expression on 16-bit words |
| `ModbusProperties.FallbackIsRemembered` | firmware/shared/src/modbus_node.c:63-86 | bit 0 of the fault flags tells, in every reachable state, whether the node started from an invalid configuration |
| `ModbusNode.Node.ExceptionResponse` | firmware/shared/src/modbus_node.c:109-124 | the response buffer holds the sealed exception and the count goes up; without room for it there is silence and no count |
| `ModbusNode.Node.ReadRegisters` | firmware/shared/src/modbus_node.c:126-158 | the buffer holds the specified reply, for every request and capacity |
| `ModbusNode.Node.WriteRegister` | firmware/shared/src/modbus_node.c:171-208 | the write, its rollback and its reply, as specified |
| `ModbusNode.Node.HandleRequest` | firmware/shared/src/modbus_node.c:210-236 | the whole handler, null pointers and wrong lengths included, equals the specified transition |
| `ModbusRuns.Drive` | firmware/shared/src/modbus_node.c:63-236 | from any stored image, the code driven through any frames and measurements gives the state and replies of the run, with a valid configuration |
| `ModbusProperties.ReadReturnsRegisters` | firmware/shared/src/modbus_node.c:126-158 | a valid read answers with a valid frame that carries exactly the registers asked for, and changes nothing |
| `ModbusProperties.ConfigAlwaysValid` | firmware/shared/src/modbus_node.c:46-74 | the configuration passes validation in every reachable state, from any stored image, over any frames and measurements |
| `ModbusProperties.PerformedWrite` | firmware/shared/src/modbus_node.c:171-208 | an accepted write is echoed, sets its register, changes no other but the generation's two, and is what a restart from the persisted image yields |
| `ModbusProperties.RejectedWrite` | firmware/shared/src/modbus_node.c:171-208 | a rejected or unpersisted write changes only the exception count |
| `ModbusProperties.WriteThenRead` | firmware/shared/src/modbus_node.c:126-208 | a written value, signed ones included, is read back exactly, at the new address when the address was written |
| `ModbusAnswers.WriteAnswer` | firmware/shared/src/modbus_node.c:160-208 | a write is answered with exception 2 exactly for a register other than 2, 16 and 17, with 3 exactly for a value outside 1..247, -5000..5000 or below 16384, with 4 exactly if an allowed one is not persisted, and with itself exactly if it is; exceptions are counted, and only an echo changes the configuration |
| `ModbusAnswers.ReadAnswer` | firmware/shared/src/modbus_node.c:126-158 | a read is answered with exception 3 exactly for a quantity outside 1..18, with 2 exactly for registers beyond the map, and with data otherwise |
| `ModbusAnswers.OtherAnswer` | firmware/shared/src/modbus_node.c:210-236 | any other function gets exception 1; damaged frames are counted and met with silence, frames for others with silence |
| `ModbusAnswers.RegistersShowState` | firmware/shared/src/modbus_node.c:88-107 | the registers show the whole state: identity, measurement, counters in two halves, signed values, generation |
| `ModbusAnswers.FallbackRegisters` | firmware/shared/src/modbus_node.c:35-74 | without a valid image they show address 1, no offset, gain 32768, generation 1 and the fallback fault |
| `PythonCrc.Compute` | simulator/modbus/protocol.py:21-27 | the simulator's loop over integers with room above 16 bits computes the 16-bit checksum for any data |
| `PythonCrc.CrcIsChecksum` | simulator/modbus/protocol.py:21-27 | the integer never leaves 16 bits and equals the firmware's register |
| `ModbusProperties.SameTrailer` | simulator/modbus/protocol.py:30-32 | the two bytes of the simulator's integer are the firmware's trailer |
| `ModbusProperties.FrameAgrees` | simulator/modbus/protocol.py:99-125 | on an 8-byte frame that is not a write both nodes answer alike and keep equal fields |
| `ModbusProperties.AgreementIsExact` | simulator/modbus/protocol.py:99-125 | they agree on a frame if and only if it is 8 bytes long and not a valid write to the node |
| `ModbusProperties.NodesAgree` | simulator/modbus/protocol.py:99-125 | over every sequence of such frames the replies are equal byte for byte and the counters equal modulo 2^32 |
| `ModbusProperties.SpoiledNeverValid` | simulator/modbus/protocol.py:99-125 | the corrupted-reply scenario never sends a frame that passes the check |
| `PythonNode.DeterministicNode.ReadRegisters` | simulator/modbus/protocol.py:67-93 | the register list and the remembered stale one, as specified |
| `PythonNode.DeterministicNode.HandleFrame` | simulator/modbus/protocol.py:99-125 | the handler under every scenario equals the specified transition |
| `SimulatorScenarios.StaleReadsRepeat` | simulator/modbus/protocol.py:67-93 | in the stale scenario every read shows the registers as they were at the first one, whatever frames come and however the values change in between, and the same request gets the same bytes |
| `SimulatorScenarios.ScenarioAnswers` | simulator/modbus/protocol.py:99-125 | a timeout is silence and changes nothing; an illegal address is exception 2 to every valid frame for the node |
| `Features.SortOrders` | services/anomaly_worker/features.py:86-86 | the sort puts earlier samples first, and at one time those of smaller id |
| `Features.StartIsStart` | services/anomaly_worker/features.py:90-99 | the window at an index starts at the earliest sample with no gap after it, at most twelve back |
| `Features.StartUnique` | services/anomaly_worker/features.py:90-99 | that description fixes the start |
| `Features.WindowStep` | services/anomaly_worker/features.py:90-99 | clearing at a gap, appending and dropping the first is the move from one window to the next |
| `Features.GenerateFeatures` | services/anomaly_worker/features.py:76-139 | the loop emits the rows the window description says, and fails exactly on invalid settings |
| `Features.EmittedExactly` | services/anomaly_worker/features.py:100-138 | a row is emitted exactly when the window is long enough, all its measurements are finite, in training all its samples are of good quality and not faulty, and its features are finite |
| `Features.RowsAreEmitted` | services/anomaly_worker/features.py:129-138 | the rows are those that the indices emit, each with its sample's id and time |
| `Features.FeaturesAreCausal` | services/anomaly_worker/features.py:76-139 | rows of any prefix of the ordered samples are a prefix of the rows of the whole |
| `Features.SliceShowsWindow` | services/anomaly_worker/features.py:90-99 | a slice with a full window of context shows the same window as the whole history |
| `Scoring.ContextIsSlice` | services/anomaly_worker/worker.py:222-245 | the two context queries give one contiguous slice with every target and, if they exist, eleven rows before the first |
| `Scoring.BatchEqualsWhole` | services/anomaly_worker/worker.py:287-340 | when the two orders agree, every target scored from its batch gets exactly the row a pass over the whole history gives |
| `BatchContext.SameTwelve` | services/anomaly_worker/worker.py:222-245 | whatever the order of receipt, context and whole history show a target the same last twelve samples if and only if no sample outside the context comes among them |
| `BatchContext.UntouchedEqualsWhole` | services/anomaly_worker/worker.py:287-340 | a target so left alone gets exactly the row a pass over the whole history gives |
| `BatchContext.LateRowIsMissed` | services/anomaly_worker/worker.py:222-245 | a row received late but earlier in time makes the difference: the last target waits for features in its batch and gets a score in one pass |
| `Scoring.Store.ScoreDeviceOnce` | services/anomaly_worker/worker.py:287-372 | a call changes exactly the target rows, each to its scored form, and returns how many got a score, or all of them while no model is ready |
| `ScoredRows.TargetsAreFirst` | services/anomaly_worker/worker.py:204-219 | the targets are the first rows in query order, up to 500, that have no score and no reason, or with a model one that does not look like the waiting one |
| `ScoredRows.TargetWritten` | services/anomaly_worker/worker.py:315-340 | where the orders agree, a target with features gets their score and percentile, each in its own column, and the diagnosis of its last twelve samples, or else the explanation, as reason; without features the waiting reason; without a model the diagnosis, or else the model message; and nothing else changes |
| `ScoredRows.UntouchedWritten` | services/anomaly_worker/worker.py:315-340 | whatever the order of receipt, the same of a target that late rows leave alone, with the features at its place in the order in time |
| `ScoredRows.OthersKept` | services/anomaly_worker/worker.py:315-340 | rows that are no targets stay as they are |
| `ScoredRows.ReturnsNewScores` | services/anomaly_worker/worker.py:287-372 | the number returned is the number of rows that got a score, or of targets while no model is ready |
| `Scoring.HandledRow` | services/anomaly_worker/worker.py:315-340 | a handled row keeps its sample, gets a score exactly if a model had features for it, always gets a reason, and comes up again only if it was handled without a model and its reason does not look like the waiting one |
| `Scoring.BacklogDrains` | services/anomaly_worker/worker.py:204-219 | a call reduces the matching rows of the table it works on by exactly min(500, n) |
| `Scoring.HandledAtMostTwice` | services/anomaly_worker/worker.py:204-219 | however readiness changes, and while rows are added between calls anywhere in the query order, no row is handled more than twice |
| `CommandTime.UuidIsValid` | firmware/esp32-gateway/main/app_main.c:77-91 | the loop accepts exactly 36 characters with hyphens at the four places and hexadecimal digits elsewhere |
| `CommandTime.UtcValueIsValid` | firmware/esp32-gateway/main/app_main.c:93-122 | the check accepts exactly a UTC stamp with one to nine fraction digits or none |
| `CommandTime.CompareIsTimeOrder` | firmware/esp32-gateway/main/app_main.c:124-128 | comparing the first 19 characters as text compares the times |
| `CommandTime.ExpiredIsPast` | firmware/esp32-gateway/main/app_main.c:124-128 | a command counts as expired exactly when the clock, cut to the second, is past its expiry or equals one written without a fraction |
| `Relay.AppliedCommand` | firmware/esp32-gateway/main/app_main.c:217-283 | a command that moves the relay is unlocked, for this device, not past its expiry, and for 1 to 30 whole seconds |
| `RelayCommands.CompletedCommand` | firmware/esp32-gateway/main/app_main.c:284-294 | a command that passes every check sets the relay as its parameters ask, arms the timer for their seconds exactly if it switches on, and is answered RELAY_ON or RELAY_OFF accordingly |
| `RelayCommands.RefusedCommand` | firmware/esp32-gateway/main/app_main.c:217-283 | a command that fails a check is answered with the status and code of the first one it fails, and changes nothing |
| `RelayCommands.PendingWasReceived` | firmware/esp32-gateway/main/app_main.c:211-296 | in every interleaving, what the command task is about to do is what a command asked that it received while unlocked, for this device and in time |
| `RelayCommands.FindIsFirst` | firmware/esp32-gateway/main/app_main.c:225-233 | a name stands for the first member of that name |
| `Relay.RunSound` | firmware/esp32-gateway/main/app_main.c:198-296 | in every reachable state of the interleaved tasks a locked relay is off, and between commands a relay that is on has its switch-off armed at most 30 s ahead, or due |
| `RelayCommands.OnlyCommandsSwitchOn` | firmware/esp32-gateway/main/app_main.c:268-287 | only a command received while unlocked, for this device and in time, that asks for the relay on turns it on |
| `Relay.OnlyWithinTimeout` | firmware/esp32-gateway/main/app_main.c:284-291 | between commands a relay that is on is within the timeout of an ON command completed since the last disconnect and reboot |
| `RelayCommands.SwitchedOffForReason` | firmware/esp32-gateway/main/app_main.c:198-296 | the relay goes off only by a received command that asks for it, a lost network, a reboot, or a callback once the time of some completed ON command is over |
| `Relay.GuardCountsBoots` | firmware/esp32-gateway/main/app_main.c:517-540 | the relay is locked exactly from the third boot without a stable minute until the next one; a power-on starts the count at one |
| `Relay.Gateway.Judge` | firmware/esp32-gateway/main/app_main.c:217-283 | the checks in the source's order, each with its status and code |
| `Relay.Gateway.HandleCommand` | firmware/esp32-gateway/main/app_main.c:211-296 | an uninterrupted command is the machine's three steps, with the acknowledgement the source publishes |
| `Relay.Gateway.RelayTimeout` | firmware/esp32-gateway/main/app_main.c:198-202 | the timer callback switches the relay off |
| `Relay.Gateway.NetworkLost` | firmware/esp32-gateway/main/gateway_platform.c:123-147 | losing Wi-Fi or the broker switches the relay off |
| `Relay.Gateway.InitializeRebootGuard` | firmware/esp32-gateway/main/app_main.c:527-540 | the guard at boot, after a power-on, with unmarked memory, and warm, with saturation |
| `Relay.Gateway.Stability` | firmware/esp32-gateway/main/app_main.c:517-525 | a stable minute clears the count and the lock |
| `LineWrap.Wrap` | scripts/build_reports.py:350-364 | the loop produces the greedy split of the words |
| `LineWrap.GreedyIsSplit` | scripts/build_reports.py:350-364 | wrapping keeps the words in order, and every line fits or is a single word |
| `LineWrap.GreedyIsOptimal` | scripts/build_reports.py:350-364 | if parts of a fitting phrase fit, no other such split has fewer lines |
| `LineWrap.MonotoneWidthsSuffice` | scripts/build_reports.py:350-364 | widths monotone under sub-phrases meet that condition |
| `LineWrap.PartsMustFit` | scripts/build_reports.py:350-364 | any phrase that fits but begins with one that does not takes at least two lines where one suffices |

## Left out

- Store writes that fail while the device keeps running: crash results are for writes that succeed or never happen. After a failed slot write a later pop can strand or discard the journalled record.
- What a device does after a load that ended in an error: it runs on with the restored ring beside the foreign journal. Without damage to the store no load ends so (`QueueRecovery.LoadOfRecoverable`).
- Global oldest-first publication: a failed replay, or a full telemetry queue, lets a newer record pass an older one. Order is claimed of the ring only.
- `ReplayLoop.AtLeastOnceExactly`: "taken by the publish call" is the MQTT client's local success; the code pops before the broker acknowledges, so a reading is lost if the supply fails between the pop and the acknowledgement. That the broker then delivers what it took is a hypothesis of the end-to-end result.
- `SequenceNumbers.NumbersGrowExactly`: holds for fewer than about 2^56 calls and reboots, after which the 64-bit mark wraps. The factory reset, which erases the mark, is not modelled, and the mutex around the call makes it one step here.
- `EndToEnd.NumberedIsFaithful`: that each reading gets a message id of its own is assumed of the random identifiers.
- `Ingestion.RunKeepsSingleAlarms`: is for sessions whose alarm query sees every committed row; no constraint protects alarms created by overlapping sessions. Overlap is modelled for telemetry rows, devices and limits.
- Health and acknowledgement ingestion, which also create devices, alarm summaries, change notification, command rows, and device fields that ingestion does not compare or update.
- Sessions whose commit fails for reasons other than a taken key.
- `SampleWindow.WindowMeetsContract`: does not bound RMS by the contract's 2000, because the code does not (`RmsMeetsContract` gives the exact condition). It is for the number of samples that the aggregation loop hands in.
- Float rounding, in the arithmetic and in the five digits that telemetry is written with: measurements, means and thresholds are reals, and the square root is any function that yields the non-negative root.
- `AlarmAgreement.WindowsAgree`: compares the sides under equal limits and with every window delivered in order; limits changed on one side, losses and reordering are left out.
- `Features.GenerateFeatures`: takes the nine feature values as a function of the window that may yield nothing; slope, deviation and the other formulas are not modelled.
- The isolation forest, model artifacts, registry states, worker alarms and diagnostics text: the scorer and the sensor rules are function parameters. What the sensor rules compute is modelled for the peak-below-RMS relation only.
- `Scoring.BatchEqualsWhole`: needs (timestamp, id) order to agree with (received_at, id) order; `BatchContext` has the condition for single targets without it, and an input that violates it.
- `Scoring.HandledAtMostTwice`: rows are not deleted, and change only by scoring.
- JSON parsing and serialisation: commands arrive as parsed values whose strings hold no NUL, telemetry records as opaque memory images. Queueing and size limits of command text are left out.
- `Relay.AppliedCommand`: takes the device clock as text in the fixed form that the clock function prints.
- Latency of the timer service: time stands still from the deadline until the callback has run, though other tasks may run in between. While a command is between its calls the relay may be on without a timer, for as long as that lasts.
- Aliasing of request and response buffers, and request buffers longer than their stated length.
- The simulator's serial port and its request builder; all of its scenarios are in `PythonNode.Handle`, a timeout being silence.
- `LineWrap.Wrap`: starts from the list of words; splitting at white space, drawing, page breaks and right-to-left shaping are left out.
- Configuration strings, topics, reconnect delays, provisioning, sensors, MQTT, the web interface, authentication and the hardware files: plumbing, or only easy claims.
