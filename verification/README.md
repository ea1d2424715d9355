# EnOcean BLE driver: model and proofs

This Dafny project models the platform-independent EnOcean driver and the parts of its platform layer that
decide which bytes reach it and in which order, and proves what they guarantee.

- `Bytes.dfy`: bytes, 32-bit words and their little-endian encoding. The model computes with integers; module
  `BitForms` proves, for every input, that the shifts, masks and ors of the source compute the same values.
- `AdStructures.dfy`: the walk over the AD structures of an advertisement (section 11 of Bluetooth Core
  Specification Vol 3 Part C), against a record grammar that covers every byte string.
- `SensorTlv.dfy`: the sensor field decoder, against a field grammar that covers every byte string, and an encoder
  that it undoes.
- `SensorWire.dfy`: the same decoder in the wire's own terms: literal field types, lengths and value bytes.
- `DriverModel.dfy`: the driver as an abstract machine. Its state is a table from address to (key, sequence number,
  signal strength, type) with two flags; its inputs are control calls and advertisements; its trace records
  decisions and callbacks.
- `EnoceanDriver.dfy`: the driver object with its array of eight slots, updated in place, which refines the
  machine call by call and over whole runs, with the same trace.
- `DriverRuns.dfy`: safety over whole runs: provenance of events and its converse, distinct nonces, the bound on
  acceptance, independence of devices.
- `Sessions.dfy`: runs seen from their inputs: which calls raise the flags, when an address is commissioned, which
  callbacks follow which decisions.
- `Telegrams.dfy`: encoders for switch, sensor and commissioning payloads and what the driver makes of them.
- `HciPath.dfy`: the report parser of the POSIX scanner, the serialiser it inverts, and the path from an HCI event
  (section 7.7.65.2 of Bluetooth Core Specification Vol 4 Part E) into the driver.
- `EndToEnd.dfy`: from the bytes of an HCI event to the driver's callbacks, in buffer positions and literal codes.
- `ScanProtocol.dfy`: the start and stop protocol of the POSIX scanner under every interleaving of controller and
  scan thread, and the scanner and thread objects, proved to follow it while the other thread interferes.
- `ZephyrCcm.dfy`: the Zephyr crypto backend's reconstruction of the AD record it authenticates.
- `Deadline.dfy`: the deadline of a timed POSIX message-queue call, whose seconds saturate.

The crypto backend is a deterministic predicate of key, nonce, additional data and tag, passed in with the
environment; nothing is assumed about it. Which callbacks are registered is part of the environment too.

## Where the code differs from its documentation

The model follows the code.

- The length guard at `src/enocean/EnoceanDriver.ipp:265` lets a record through that is one byte longer than the
  buffer. The model therefore gives the walk the byte that follows the buffer as a parameter, and
  `AdStructures.StaysInsideExact` says exactly when the walk reads it or hands out a span that includes it, and
  `AdStructures.LeavesBuffer` gives two such buffers. For reports of the POSIX scanner that byte is the report's
  signal strength.
- A manufacturer record too short for a company ID borrows the bytes after it (`src/enocean/EnoceanDriver.ipp:270-280`).
  `AdStructures.ExtractionExact` says exactly when this hides a later EnOcean record, and
  `AdStructures.BorrowedCompanyHides` gives an advertisement of twelve bytes for which it does.
- Re-commissioning (`src/enocean/EnoceanDriver.ipp:353-376`) is never reached, because known addresses are routed to
  the data handlers first: `DriverRuns.NeverRekeyed`.
- Sequence numbers do not wrap around, although `src/enocean/EnoceanDriver.hpp:222` says so: `DriverRuns.Exhausted`.
- The commissioning layout described at `src/enocean/EnoceanDriver.hpp:168-171` is not the one the code reads.
- An authenticated switch telegram with three optional bytes advances the sequence number without an event:
  `Telegrams.SilentAdvanceExact`, with the telegram of `Telegrams.TwelveByteTelegram`.
- A plain commissioning payload of 27 bytes whose key starts with 0x3E is read as a marked one and stored with a
  shifted key: `Telegrams.PlainCommissioningExact`, with the advertisement of `Telegrams.PlainKeyShifted`.
- The scan thread object is never destroyed by stop, so a scan that was stopped cannot be started again:
  `ScanProtocol.NoRestart`.
- In the last representable second the message-queue deadline can lie after the exact sum:
  `Deadline.LastSecondOvershoots`.
- When the exact sum is not representable, the deadline need not be the largest time: it can lie almost a second
  before it. `Deadline.DeadlineExact` says exactly when it is the largest time, and `Deadline.SaturatesEarly` gives
  a time for which it is not.

## Model

| member | source | states |
|---|---|---|
| BitForms.ShiftOrIsFromLE | src/enocean/EnoceanDriver.ipp:413-420 | the shift-or of any four bytes is their little-endian value |
| BitForms.ShiftMaskIsToLE | src/enocean/EnoceanDriver.ipp:299-302 | shifting and masking any 32-bit word yields its four little-endian bytes |
| BitForms.CompanyIdIsPositional | src/enocean/EnoceanDriver.ipp:274-276 | the company ID read by shift-or is the little-endian value of its two bytes |
| Bytes.Signed | platform/posix_core/ble/Ble.cpp:285 | the signal strength is the only signed byte congruent to the unsigned one |
| BitForms.StatusByte | src/enocean/EnoceanDriver.ipp:438-469 | the status masks and shift select reserved bits, button mask and action of every status byte |
| BitForms.HeaderByte | src/enocean/EnoceanDriver.ipp:554-558 | the header mask and shift select type and size bits of every TLV header |
| BitForms.AccelerationWord | src/enocean/EnoceanDriver.ipp:624-639 | the acceleration shifts and masks select the 2-bit status and three 10-bit axes of every word |
| AdStructures.ExtractManufacturerData | src/enocean/EnoceanDriver.ipp:255-290 | the loop terminates on every buffer, returns what the walk specification says, and reads the byte after the buffer or hands out a span that includes it exactly when `TouchesAfter` holds |
| AdStructures.Parse | src/enocean/EnoceanDriver.ipp:259-267 | every byte string is complete records followed by a clean ending or a last record one byte short |
| AdStructures.ExtractionExact | src/enocean/EnoceanDriver.ipp:255-290 | on every buffer, split into records and ending, the result is the payload of the first 0x03DA record, one that is a byte short included, if and only if there is none or no short manufacturer record before it borrows the company ID; otherwise it is empty |
| AdStructures.BorrowedCompanyHides | src/enocean/EnoceanDriver.ipp:270-280 | a well-formed advertisement of twelve bytes whose EnOcean record is hidden by a borrowed company ID |
| AdStructures.LongRecordsNeverMislead | src/enocean/EnoceanDriver.ipp:270-280 | manufacturer records long enough for a company ID never mislead the walk |
| AdStructures.ExtractUndoesWrite | test/enocean_driver_test/EnoceanDriverTests.cpp:150-163 | extraction undoes the encoding of a payload after any records that do not end the walk and before any bytes at all; after records of other kinds one of which ends the walk it returns nothing |
| AdStructures.LongRecordsReach | src/enocean/EnoceanDriver.ipp:270-287 | records of other kinds and manufacturer records of other companies do not end the walk |
| AdStructures.StaysInsideExact | src/enocean/EnoceanDriver.ipp:260-288 | the walk reads the byte after the buffer or hands out a span that includes it if and only if it reaches a last record one byte short that is a lone length byte or starts as an EnOcean record |
| AdStructures.LeavesBuffer | src/enocean/EnoceanDriver.ipp:265-284 | two buffers that lead outside; for the second, the payload returned is the byte after the buffer |
| AdStructures.InsideIgnoresAfter | src/enocean/EnoceanDriver.ipp:255-290 | when the walk stays inside, what follows the buffer has no influence |
| AdStructures.PayloadHasHeader | src/enocean/EnoceanDriver.ipp:281-284 | every returned payload is preceded by its own length byte, the manufacturer type and the company ID |
| SensorTlv.AssembleValue | src/enocean/EnoceanDriver.ipp:588-592 | assembling a value byte by byte gives its little-endian value and never shifts by 32 or more |
| SensorTlv.DecodeSensorData | src/enocean/EnoceanDriver.ipp:545-660 | the loop terminates on every byte string, reads only inside it and returns what the recursive decoder says |
| SensorTlv.Parse | src/enocean/EnoceanDriver.ipp:553-586 | every byte string is complete fields followed by an incomplete one or nothing |
| SensorTlv.DecodeIsFold | src/enocean/EnoceanDriver.ipp:553-660 | decoding applies exactly the complete fields in order; an incomplete ending changes nothing |
| SensorTlv.DecodeConcatenation | src/enocean/EnoceanDriver.ipp:553-660 | after complete fields, decoding a concatenation is the first reading overridden field by field by the second |
| SensorTlv.UnpackAcceleration | src/enocean/EnoceanDriver.ipp:621-641 | the four acceleration quantities packed in one word are read back, axes in [-512, 511] |
| SensorTlv.DecodeUndoesEncode | src/enocean/EnoceanDriver.ipp:553-660 | decoding undoes encoding for every in-range reading, fields in any order and of any width that holds the value, repeated, and interleaved with unknown, variable-length or embedded commissioning fields |
| SensorTlv.EncodingExists | src/enocean/EnoceanTypes.hpp:108-129 | every in-range reading has an encoding in proper fields, which decodes to it |
| SensorWire.DecodeExact | src/enocean/EnoceanDriver.ipp:553-660 | for every byte string, in literal types and lengths: a truncated field ends decoding, a commissioning block of 22 bytes and a variable-length field are skipped, and a fixed-length field sets the quantity of its type to what its value bytes say and keeps every other |
| SensorWire.SaysDetermines | src/enocean/EnoceanDriver.ipp:594-658 | what the value bytes say determines the reading |
| DriverModel.ProductFamilies | src/enocean/EnoceanDriver.ipp:75-86 | switches are recognised by 0x03DA or 0xE215 in the two most significant address bytes, sensors by 0xE5 in the most significant one |
| DriverModel.BuildNonce | src/enocean/EnoceanDriver.ipp:292-306 | the filled array is address, little-endian sequence number and three zero bytes |
| DriverModel.NonceInjective | src/enocean/EnoceanDriver.ipp:292-306 | address and sequence number are determined by the nonce |
| DriverModel.NonceCarriesSequenceBytes | src/enocean/EnoceanDriver.ipp:413-449 | nonce bytes 6 to 9 are payload bytes 0 to 3 of every telegram |
| DriverModel.StepWellFormed | src/enocean/EnoceanDriver.ipp:117-210 | every call keeps at most eight entries, with six-byte random addresses, 16-byte keys and the type detected from the address |
| DriverModel.RunWellFormed | src/enocean/EnoceanDriver.ipp:117-210 | every run keeps the table well formed |
| EnoceanDriver.TableSize | src/enocean/EnoceanDriver.ipp:146-155 | slots with distinct addresses represent as many entries |
| EnoceanDriver.TableKeys | src/enocean/EnoceanDriver.ipp:212-224 | an address has an entry exactly when a slot holds it |
| EnoceanDriver.TableUpdate | src/enocean/EnoceanDriver.ipp:196-202 | updating a slot in place updates the entry at its address only |
| EnoceanDriver.Driver.constructor | src/enocean/EnoceanDriver.hpp:61-63 | a new driver is in the power-on state with eight free slots |
| EnoceanDriver.Driver.Init | src/enocean/EnoceanDriver.ipp:117-127 | initialisation empties the table, raises the initialised flag, disables commissioning and keeps the slot invariant |
| EnoceanDriver.Driver.EnableCommissioning | src/enocean/EnoceanDriver.ipp:129-133 | the commissioning flag is raised and nothing else changes |
| EnoceanDriver.Driver.DisableCommissioning | src/enocean/EnoceanDriver.ipp:135-139 | the commissioning flag is lowered and nothing else changes |
| EnoceanDriver.Driver.CommissioningEnabled | src/enocean/EnoceanDriver.ipp:141-144 | the result is the flag of the abstract state |
| EnoceanDriver.Driver.DeviceCount | src/enocean/EnoceanDriver.ipp:146-155 | counting active slots gives the number of commissioned addresses |
| EnoceanDriver.Driver.FindDevice | src/enocean/EnoceanDriver.ipp:212-224 | finds the first active slot whose address starts with the given one; a whole address is found exactly when it is commissioned |
| EnoceanDriver.Driver.AllocateDevice | src/enocean/EnoceanDriver.ipp:226-234 | returns the first free slot, which ends the active prefix, or none when all eight are active |
| EnoceanDriver.Driver.Authenticate | src/enocean/EnoceanDriver.ipp:443-457 | the tag of the payload is checked under the device's key with the nonce of its address and sequence number |
| EnoceanDriver.Driver.HandleSwitch | src/enocean/EnoceanDriver.ipp:406-491 | one switch telegram updates slot and trace as the machine does and keeps the slot invariant |
| EnoceanDriver.Driver.HandleSensor | src/enocean/EnoceanDriver.ipp:493-666 | one sensor telegram updates slot and trace as the machine does and keeps the slot invariant |
| EnoceanDriver.Driver.LocateKey | src/enocean/EnoceanDriver.ipp:317-351 | the key's place in a payload, or its refusal, by length, marker and product family |
| EnoceanDriver.Driver.HandleCommissioning | src/enocean/EnoceanDriver.ipp:314-404 | one commissioning payload fills a free slot, refreshes a known one or is refused, as the machine says |
| EnoceanDriver.Driver.ProcessAdvertisement | src/enocean/EnoceanDriver.ipp:170-210 | one advertisement is one step of the machine: same table, flags and trace; active slots stay a prefix with distinct addresses |
| EnoceanDriver.Replay | src/enocean/EnoceanDriver.ipp:117-210 | any sequence of calls from power-on leaves the table and trace of the machine's run |
| DriverRuns.RunExtends | src/enocean/EnoceanDriver.ipp:196-209 | without initialisation no entry, key, type or address type is ever lost or changed and no sequence number decreases |
| DriverRuns.StepExtends | src/enocean/EnoceanDriver.ipp:196-209 | one call adds at most one entry and changes no key or type |
| DriverRuns.RunConsistent | src/enocean/EnoceanDriver.ipp:170-210 | in every run every event is justified by the events since the last initialisation, and the table holds exactly the addresses commissioned since then, with the commissioned keys and the sequence numbers accepted last or else commissioned |
| DriverRuns.NeverRekeyed | src/enocean/EnoceanDriver.ipp:353-376 | no run takes the re-commission branch |
| DriverRuns.EventProvenance | src/enocean/EnoceanDriver.ipp:413-490 | every button and sensor event follows a verification under the key of a commissioning step of that address, taken since the last initialisation while commissioning was enabled, with a sequence number above that step's and every earlier accepted one |
| DriverRuns.AcceptedExactly | src/enocean/EnoceanDriver.ipp:170-203 | the converse, in every run: an advertisement of an address commissioned since the last initialisation is accepted exactly when it passes the filters, verifies under the commissioned key, exceeds the commissioned and every accepted sequence number and, from a switch, has an acceptable length and status |
| DriverRuns.NoncesDistinct | src/enocean/EnoceanDriver.ipp:447-464 | between initialisations the nonces of accepted telegrams are pairwise distinct across devices and handlers |
| DriverRuns.AcceptanceBound | src/enocean/EnoceanDriver.ipp:308-312 | a device's accepted telegrams number at most its stored minus its commissioned sequence number, in every run |
| DriverRuns.Exhausted | src/enocean/EnoceanDriver.ipp:308-312 | once the stored sequence number is 2^32 - 1, nothing from the device is accepted until initialisation |
| DriverRuns.InitForgets | src/enocean/EnoceanDriver.ipp:117-127 | a session that starts with initialisation is accepted again when replayed, event for event |
| DriverRuns.Projection | src/enocean/EnoceanDriver.ipp:196-224 | a commissioned device's entry and events depend only on its own advertisements, in every run without initialisation |
| Sessions.FlagsExact | src/enocean/EnoceanDriver.ipp:117-139 | after every run from power-on the driver is initialised exactly when a call initialised it, and commissioning is enabled exactly when the last control call enabled it |
| Sessions.CommissionedExactly | src/enocean/EnoceanDriver.ipp:170-209 | in every run an unknown address is commissioned exactly when the driver was initialised, the last control call enabled commissioning, filters, length and format are met and a slot is free |
| Sessions.CallbacksExact | src/enocean/EnoceanDriver.ipp:400-664 | in every run the commissioned callback directly follows a pairing exactly when it is registered, the button and sensor callbacks an acceptance exactly when registered for the device's family and, for a switch, the optional data are not three bytes; no callback follows anything else |
| Telegrams.SwitchEventExact | src/enocean/EnoceanDriver.ipp:406-491 | a button event is emitted for exactly the fresh, authentic encodings with 0, 1, 2 or 4 optional bytes, and says what was encoded |
| Telegrams.SilentAdvanceExact | src/enocean/EnoceanDriver.ipp:464-483 | the sequence number advances without an event exactly for fresh, authentic twelve-byte telegrams |
| Telegrams.TwelveByteTelegram | src/enocean/EnoceanDriver.ipp:474-483 | a telegram of twelve bytes that is accepted without an event |
| Telegrams.DataTelegramExact | src/enocean/EnoceanDriver.ipp:196-203 | in terms of its bytes, when a data telegram is accepted, what is stored whether or not it is, and all events it causes, callbacks exactly when registered |
| Telegrams.PairingExact | src/enocean/EnoceanDriver.ipp:170-209 | when an unknown address is commissioned, what is then stored and which events follow, and that nothing changes otherwise |
| Telegrams.RecommissioningExact | src/enocean/EnoceanDriver.ipp:353-376 | a commissioning payload of a known address replaces key, number, even by a smaller one, and signal strength, keeps the types and makes no callback |
| Telegrams.FilteredHasNoEffect | src/enocean/EnoceanDriver.ipp:170-194 | a filtered advertisement has no effect |
| Telegrams.StepIgnoresAfter | src/enocean/EnoceanDriver.ipp:187-210 | while the walk stays inside the advertisement, what follows it in memory does not reach the driver |
| Telegrams.SwitchAdvertisement | src/enocean/EnoceanDriver.ipp:170-210 | a fresh, authentic switch telegram in any advertisement that carries it produces exactly the encoded event |
| Telegrams.SensorAdvertisement | src/enocean/EnoceanDriver.ipp:493-666 | a fresh, authentic sensor telegram in any advertisement that carries it reports exactly the encoded reading |
| Telegrams.MarkedCommissioningStores | src/enocean/EnoceanDriver.ipp:338-393 | a marked commissioning payload stores its key, sequence number and the detected type and causes exactly the pairing and its callback |
| Telegrams.PlainCommissioningExact | src/enocean/EnoceanDriver.ipp:333-393 | a plain commissioning payload stores its key exactly when the device is no sensor and the payload is not taken for a marked one; one that is stores the key shifted by one byte |
| Telegrams.PlainKeyShifted | src/enocean/EnoceanDriver.ipp:333-349 | a plain advertisement of 31 bytes whose key is stored shifted |
| AdvReports.DeliverUndoesWrite | platform/posix_core/ble/Ble.cpp:248-296 | the parser delivers exactly the reports written, in order |
| AdvReports.DeliverIsMaximal | platform/posix_core/ble/Ble.cpp:264-295 | on every buffer the deliveries are the complete reports it starts with, as many as announced or all there are |
| AdvReports.DeliverTruncated | platform/posix_core/ble/Ble.cpp:264-279 | on a truncated buffer the parser delivers the maximal prefix of complete reports |
| HciPath.EventRoundTrip | platform/posix_core/ble/Ble.cpp:225-259 | an event with at most fifteen reports is read back exactly, one with more is dropped |
| HciPath.AdvertisementCallback | src/enocean/EnoceanDriver.ipp:157-168 | forwarding one more report extends the run by one step |
| HciPath.ReportInBuffer | platform/posix_core/ble/Ble.cpp:272-292 | the spans handed to the callback are those of the report, and the byte after the data is its signal strength |
| HciPath.ForwardReports | platform/posix_core/ble/Ble.cpp:261-295 | the loop acts on the driver as the in-order run over the delivered reports |
| HciPath.DispatchAdvReport | platform/posix_core/ble/Ble.cpp:248-296 | the driver sees the delivered reports in order, and nothing without reports, without a registered driver or when more than fifteen are announced |
| HciPath.HandleEvent | platform/posix_core/ble/Ble.cpp:223-245 | one event acts on the driver as the in-order run over its complete reports |
| HciPath.ShortEventIsHarmless | platform/posix_core/ble/Ble.cpp:225-228 | the minimum length drops only events that leave driver state and trace unchanged |
| EndToEnd.InputsExact | platform/posix_core/ble/Ble.cpp:223-296 | for every byte string read from the socket: without packet type 4, event code 0x3E and subevent 2, or with more than fifteen announced reports, the driver gets nothing; otherwise exactly the announced reports that are complete, each with type, address type, address, data and signal strength at its position |
| EndToEnd.SwitchReport | platform/posix_core/ble/Ble.cpp:223-296 | from HCI bytes to callback: a new, verified switch telegram stores number and signal strength and yields exactly the encoded button event |
| EndToEnd.SensorReport | platform/posix_core/ble/Ble.cpp:223-296 | from HCI bytes to callback: a new, verified sensor telegram stores number and signal strength and yields exactly the encoded reading |
| EndToEnd.CommissioningReport | platform/posix_core/ble/Ble.cpp:223-296 | from HCI bytes to callback: a marked commissioning payload of a new address stores its entry and causes exactly the pairing and its callback |
| EndToEnd.SensorSession | src/enocean/EnoceanDriver.ipp:117-210 | from power-on: initialising, enabling, commissioning a sensor, disabling and one telegram give exactly this table and trace |
| ScanProtocol.NextKeepsInv | platform/posix_core/ble/Ble.cpp:98-139 | every step of controller and scan thread keeps the protocol invariant |
| ScanProtocol.OneThreadAndEnabled | platform/posix_core/ble/Ble.cpp:98-139 | in every interleaving at most one scan thread is created, and a raised running flag means that the last command was enable |
| ScanProtocol.RunningMeansScanning | platform/posix_core/ble/Ble.cpp:98-128 | between calls a raised running flag means that the scan thread exists and has not ended |
| ScanProtocol.ScanThreadChangesPosition | platform/posix_core/ble/Ble.cpp:211-246 | any number of steps of the scan thread changes nothing but its own position |
| ScanProtocol.DispatchesWhileStopped | platform/posix_core/ble/Ble.cpp:211-246 | while the flag is down the scan thread dispatches at most the event it is reading or holding |
| ScanProtocol.DispatchesAreReports | platform/posix_core/ble/Ble.cpp:211-246 | dispatches and reports read correspond one to one: an empty read or a dropped event leads to no dispatch |
| ScanProtocol.ScanThreadEnds | platform/posix_core/ble/Ble.cpp:211-246 | while the flag is down the scan thread takes at most three more steps |
| ScanProtocol.AtMostOneDispatchAfterStop | platform/posix_core/ble/Ble.cpp:130-139 | after stop clears the flag at most one more event is dispatched before it is raised again |
| ScanProtocol.OneDispatchAfterStop | platform/posix_core/ble/Ble.cpp:211-246 | an interleaving in which that one dispatch happens |
| ScanProtocol.NoRestart | platform/common/ithread/IThread.hpp:212-229 | after a scan was started and stopped no later start succeeds |
| PosixScanner.Thread.Create | platform/common/ithread/IThread.hpp:212-229 | creation succeeds exactly when the thread is not active and the system call succeeds, and then marks it active |
| PosixScanner.Thread.Destroy | platform/common/ithread/IThread.hpp:260-270 | destruction of an inactive thread succeeds without effect; otherwise it clears the flag exactly on success |
| PosixScanner.Scanner.InitImpl | platform/posix_core/ble/Ble.cpp:78-96 | outcome and socket state for every result of routing and opening |
| PosixScanner.Scanner.EnableLeScan | platform/posix_core/ble/Ble.cpp:165-195 | succeeds exactly when both commands do, leaves disable or enable as the last command accordingly, and follows the protocol under interference |
| PosixScanner.Scanner.StartScanImpl | platform/posix_core/ble/Ble.cpp:98-128 | the outcome for every state and call result, and the last command it leaves; success means running, enabled and a live scan thread; the protocol is followed under interference |
| PosixScanner.Scanner.StopScanImpl | platform/posix_core/ble/Ble.cpp:130-139 | stop always succeeds, leaves the flag down and disables a running scan, under interference |
| ZephyrCcm.AssembleCall | platform/zephyr_core/crypto/Crypto.cpp:32-76 | oversized additional data or ciphertext is refused; otherwise the call gets nonce, ciphertext with tag, and header with additional data |
| ZephyrCcm.HeaderReconstructed | platform/zephyr_core/crypto/Crypto.cpp:40-59 | for a payload found by the walk, header, additional data and tag are byte for byte the original AD record, with its length byte untruncated |
| ZephyrCcm.FullAadIsHeader | platform/zephyr_core/crypto/Crypto.cpp:47-59 | however a payload is split into additional data, ciphertext and tag, the four rebuilt header bytes and what follows are the AD record |
| ZephyrCcm.LegacyFits | platform/zephyr_core/crypto/Crypto.cpp:42-45 | no telegram in an advertisement of up to 31 bytes is refused for its size |
| Deadline.MsToTimespec | platform/posix_core/message_queue/MessageQueue.ipp:121-152 | the steps compute the deadline, exact or saturated, and no intermediate result overflows |
| Deadline.DeadlineExact | platform/posix_core/message_queue/MessageQueue.ipp:121-152 | the deadline is normalised and never before now; before the last second it is never after the exact sum; it equals the exact sum exactly when that is representable and, in the last second, is the largest time; otherwise seconds and nanoseconds saturate separately, so it is the largest time exactly when the time is in the last second or the nanoseconds alone reach its end |
| Deadline.LastSecondOvershoots | platform/posix_core/message_queue/MessageQueue.ipp:132-136 | a time in the last second for which the deadline lies after a representable exact sum |
| Deadline.SaturatesEarly | platform/posix_core/message_queue/MessageQueue.ipp:138-148 | a time for which the sum is not representable and the deadline is almost a second before the largest time |

## Left out

- EnoceanDriver.Driver.HandleCommissioning: stated for a six-byte address, which `src/enocean/EnoceanDriver.hpp:173` asks of callers.
- EnoceanDriver.Driver.FindDevice: stated for addresses of at most six bytes; a longer one would be compared past the stored address.
- HciPath.DispatchAdvReport: a callback other than the driver's is not modelled.
- ZephyrCcm.AssembleCall: stated for a nonce of at most 13 bytes, since a longer one would be copied past its buffer; the tag's type fixes its four bytes.
- Deadline.MsToTimespec: the current time is a parameter, and `time_t` and `long` have 64 bits; it is normalised, as `clock_gettime` returns it, and not negative, since the source's first subtraction would then overflow.
- AES-CCM, OpenSSL and the Zephyr CCM call: foreign code; the verdict is a parameter, and the two backends are not claimed to agree.
- Reads outside the buffer have no meaning in C++; the model gives the one byte that can be read a value and makes no claim about it.
- HCI sockets, BlueZ and Zephyr Bluetooth calls, file descriptors: their outcomes are parameters; blocking, timing and liveness are not modelled, and disable commands are taken to succeed.
- The scanner's destructor and a scanner controlled from several threads at once.
- Callback bodies, and the decommissioned and loaded callbacks, which the driver never calls.
- Mutexes, semaphores, queues, GPIO, serial, logging, error conversions and start-up code: thin wrappers over operating-system objects.
