# Plant-Monitor RTC log, modelled in Dafny

The Plant-Monitor firmware (an ESP8266 soil-moisture logger) keeps a ring log of
sensor records in the 512 bytes of RTC user memory that survive a soft reset.
Each record (`struct MoistureData`) holds an 8-bit checksum, a 32-bit Unix
timestamp and a moisture byte. The checksum is CRC-8/SMBUS and covers the four
timestamp bytes only. Records sit at the even block offsets 0, 2, ..., 126.

This project models the persistence core of `src/main.cpp`:

- record validity, as decided by `getRTCData` and `printRTCData`;
- the start-up slot selector `findOldestOffset` and the start-up write in `setup`;
- `writeRTCData`, without the sensor arithmetic;
- the hourly rotation at the top of `loop`, with its 16-bit cursor and its
  32-bit `3600 + timeStamp`;
- the diagnostic table loop that runs on every web request. It matters because
  it reads every slot through the same global buffer `rtcData` that the
  rotation test uses.

Modules, one per layer:

- `Crc8` defines CRC-8/SMBUS bit by bit. It proves the catalogue check value,
  agreement with the table-driven form, and detection of every single-byte error.
- `Bytes` holds the 32-bit word type and the little-endian image of a timestamp,
  with round-trip lemmas.
- `Record` holds the record, its checksum and its validity.
- `Region` models the RTC user memory as 64 independent slot cells, with a set
  of faulty offsets where a read or write fails.
- `Rtc` covers `getRTCData`, `printRTCData`, `writeRTCData` and `findOldestOffset`,
  each taking and returning the contents of the shared buffer `rtcData`.
- `Device` holds the state (buffer, region, cursor `currentOffset`), start-up,
  the rotation, the diagnostic table and one pass of `loop`.
- `Findings` has the two discrepancies listed below, each as written and corrected.

Clock readings and the moisture byte are parameters. `now` is the reading in
the rotation test, and `stamp` is the one `writeRTCData` takes.

Three behaviours of the code worth knowing:

- An all-zero slot verifies. CRC-8/SMBUS starts from 0, so four zero bytes have
  checksum 0 (`Record.BlankIsValid`). The selector does not see a zeroed,
  never-written slot as free: it reads as a valid record with timestamp 0.
  On zeroed memory, start-up therefore writes slot 0
  (`Findings.SetupOnZeroedMemory`).
- The cursor wraps only when it exceeds 128, so it stops once at 128, past the
  last slot (finding 1).
- The user memory has 128 blocks of 4 bytes, and both scans stop at block
  offset 128.

## Model

| member | source | states |
|---|---|---|
| `Crc8.CheckValue` | src/main.cpp:133 | The checksum is CRC-8/SMBUS: the CRC of "123456789" is 0xF4 |
| `Crc8.TableAgrees` | src/main.cpp:133 | A table-driven formulation of the CRC equals the bitwise definition on every input |
| `Crc8.TablePublishedEntries` | src/main.cpp:133 | The bitwise definition reproduces entries 0x01, 0x02, 0x10, 0x80 and 0xFF of the published CRC-8 (polynomial 0x07) lookup table: 0x07, 0x0E, 0x70, 0x89, 0xF3 |
| `Crc8.TableInjective` | src/main.cpp:133 | The 256 table entries are distinct: one byte into an empty register is a bijection |
| `Crc8.SmbusFromDetectsByteChange` | src/main.cpp:133 | Changing any one byte of the checked data changes the checksum |
| `Bytes.LeBytesRoundTrip` | src/main.cpp:93 | The four in-memory bytes of a timestamp determine it, and every four bytes are some timestamp's image |
| `Record.Checksum` | src/main.cpp:133 | The checksum is CRC-8/SMBUS over the four little-endian bytes of the timestamp alone, as at lines 93 and 108 too |
| `Record.IsValid` | src/main.cpp:99 | A record verifies when its stored `crc8` equals the checksum recomputed from its timestamp |
| `Record.Seal` | src/main.cpp:130-136 | The record `writeRTCData` fills in verifies and keeps the given timestamp and moisture |
| `Record.ValidityIgnoresMoisture` | src/main.cpp:99 | Replacing the moisture byte never changes whether a record verifies |
| `Record.SealIsOnlyValidRecord` | src/main.cpp:99 | A record verifies exactly when it equals the sealed record of its own timestamp and moisture |
| `Record.TimestampCorruptionDetected` | src/main.cpp:93-99 | Flipping any bits within one byte of a valid record's timestamp gives a different timestamp, and the record then fails verification |
| `Record.ByteReplacementDetected` | src/main.cpp:93 | Replacing any one byte of a timestamp's in-memory image by another changes its checksum |
| `Record.ChecksumCorruptionDetected` | src/main.cpp:99 | Flipping bits of a valid record's stored checksum makes it fail verification |
| `Record.BlankIsValid` | src/main.cpp:14-19 | The all-zero buffer verifies |
| `Region.Read` | src/main.cpp:106 | A read succeeds exactly at an accessible slot and returns that slot's record |
| `Region.Write` | src/main.cpp:138 | A write succeeds exactly at an accessible slot and keeps the faulty set |
| `Region.ReadAfterWrite` | src/main.cpp:138-142 | After a write the slot reads back the record written, and every other offset reads as before |
| `Region.WriteFailsIffReadFails` | src/main.cpp:138 | The write fails at exactly the offsets where a read (line 106) fails |
| `Region.HealthyAccess` | src/main.cpp:67 | In a region with no fault every slot is readable and offset 128 is not |
| `Rtc.GetRTCData` | src/main.cpp:104-111 | A readable slot is copied into the buffer and the returned CRC is CRC-8/SMBUS of that record's timestamp, so it equals the stored `crc8` iff the record verifies; a failed read returns 0 and leaves the buffer |
| `Rtc.PrintRTCData` | src/main.cpp:87-102 | Returns true iff the slot can be read and verifies; false whenever the read fails |
| `Rtc.WriteRTCData` | src/main.cpp:113-144 | The buffer becomes the sealed record; the write succeeds iff the slot is accessible, and then the slot reads it back and `printRTCData` returns true; no other offset changes |
| `Rtc.FindOldestOffset` | src/main.cpp:63-85 | The chosen offset is always even and in [0, 126] |
| `Rtc.ScanFrom` | src/main.cpp:67-83 | The loop from offset `cur` on ends on a slot: the running minimum's, or one at or after `cur` |
| `Rtc.ScanFromStopsAtInvalid` | src/main.cpp:78-82 | A readable slot that fails verification ends the scan there, returning that offset |
| `Rtc.ScanFromStopsAtFirstInvalid` | src/main.cpp:67-82 | Past slots that all verify, the scan returns the first slot that fails verification |
| `Rtc.ScanFromIsMinimum` | src/main.cpp:67-77 | Over slots that all verify, the scan is an independent running minimum over the records |
| `Rtc.MinimumIsOldest` | src/main.cpp:65-84 | That running minimum ends at the oldest slot below the seed time, lowest offset on a tie, else 0 |
| `Rtc.FindOldestOffsetFreeSlot` | src/main.cpp:67-82 | With no read fault, the selector returns the first slot in scan order that fails verification |
| `Rtc.FindOldestOffsetOldest` | src/main.cpp:65-84 | With no read fault and every slot valid, the selector returns the oldest timestamp strictly below `now`, ties to the lowest offset, or 0 when none is below |
| `Rtc.FindOldestOffsetPrefersFree` | src/main.cpp:69-82 | With no read fault, the chosen slot fails verification iff some slot does |
| `Rtc.FirstInvalidExists` | src/main.cpp:67-82 | When some slot fails verification there is a first such slot |
| `Rtc.ScanFromTakesUnreadableSlot` | src/main.cpp:69-70 | After a readable, verifying slot whose CRC is not 0, an unreadable slot is returned as free, because `getRTCData` returns 0 on a failed read (line 110) and the buffer keeps the previous record |
| `Rtc.UnreadableFirstSlotAtBoot` | src/main.cpp:65-76 | At start-up, with the buffer all zero, an unreadable slot 0 passes as a valid record with timestamp 0 and becomes the running minimum once the clock is past 0 |
| `Rtc.BootChoosesUnreadableFirstSlot` | src/main.cpp:63-85 | At start-up, when slot 0 cannot be read and every other slot reads and verifies, the selector returns 0 |
| `Device.NextCursor` | src/main.cpp:152-155 | The cursor step never exceeds 128: up to 126 it adds 2, and from 127 to 0xFFFE it resets to 0 |
| `Device.CursorStaysInRange` | src/main.cpp:152-155 | From an even cursor in [0, 128] the step stays there: below 128 it adds 2 (so 126 goes to 128), and 128 goes to 0 |
| `Device.AdvanceCounts` | src/main.cpp:152 | Repeated steps add 2 each until 128 is reached |
| `Device.CursorOrbit` | src/main.cpp:152-155 | From 0, after n rotations the cursor is 2 * (n mod 65): a ring of 65 positions for 64 slots |
| `Device.OneHourLater` | src/main.cpp:150 | `3600 + timeStamp` in 32-bit arithmetic: the plain sum, or the sum less 2^32 (then below 3600) when it overflows |
| `Device.RotationDue` | src/main.cpp:151 | Rotation is due when the clock reading is strictly greater than that sum |
| `Device.RotationThreshold` | src/main.cpp:150-151 | Rotation is due exactly when the clock is strictly past the timestamp plus 3600, with the sum taken modulo 2^32 |
| `Device.Tick` | src/main.cpp:150-157 | Not due: nothing changes. Due: the cursor takes one step, the buffer holds the sealed record, the record is readable at the new cursor when accessible, and no other offset changes |
| `Device.TickAtMostOneStep` | src/main.cpp:150-157 | A pass moves the cursor at most one step, and anything changes only when rotation was due |
| `Device.TickRoundTrip` | src/main.cpp:150-157 | After a stored rotation, `printRTCData` at the cursor returns true with the new record, and the next rotation is measured from `stamp` |
| `Device.TickFailedWrite` | src/main.cpp:152-156 | When the write fails the cursor still advances and the buffer still takes the new stamp, while the region is unchanged |
| `Device.Setup` | src/main.cpp:48-52 | The cursor is the slot `findOldestOffset` picks when run on the all-zero buffer, the buffer is the sealed record, and it is stored there when that slot is accessible; nothing else changes |
| `Device.SetupFillsFirstFreeSlot` | src/main.cpp:48-52 | At start-up with no read fault, the first slot that fails verification receives the new record |
| `Device.SetupReplacesOldest` | src/main.cpp:48-52 | At start-up with no read fault and every slot valid, the oldest record below the scan time (or slot 0) is overwritten |
| `Device.ScanTable` | src/main.cpp:235-241 | Row j shows slot 2j's record and recomputed CRC when it can be read; an unreadable slot shows computed CRC 0 |
| `Device.ScanLeavesLastReadable` | src/main.cpp:235-241 | After the table loop the buffer holds the last readable slot scanned |
| `Device.ScanKeepsUnreadBuffer` | src/main.cpp:235-241 | When no scanned slot can be read the buffer is left as it was |
| `Device.ScanRowsIgnoreBuffer` | src/main.cpp:235-241 | With no read fault the rows do not depend on the buffer's previous contents |
| `Device.Serve` | src/main.cpp:188-241 | A request leaves region and cursor alone, shows the buffer's moisture on the gauge, and lists 64 rows |
| `Device.ServeLeavesLastSlot` | src/main.cpp:235-241 | With no read fault, a request leaves the record of slot 126 in the buffer |
| `Device.ServeShowsVerdict` | src/main.cpp:237-240 | A readable slot's row has equal stored and computed CRCs iff the slot verifies |
| `Device.ServeRowsRepeat` | src/main.cpp:235-241 | With no read fault, serving twice shows the same rows |
| `Device.Step` | src/main.cpp:146-241 | One pass of `loop` sends a page iff a client asked, and its cursor and region are those of the rotation |
| `Findings.CursorRunsPastLastSlot` | src/main.cpp:152-156 | As written: from 126 the cursor goes to 128, the write there fails, and the record exists only in the buffer |
| `Findings.NextSlotStaysOnSlots` | src/main.cpp:152-155 | Corrected step: from a slot to the next slot, and from 126 back to 0 |
| `Findings.SlotOrbit` | src/main.cpp:152-155 | Corrected step: from 0, after n rotations the cursor is 2 * (n mod 64) |
| `Findings.TickWrapped` | src/main.cpp:150-157 | The rotation with the corrected step: same trigger, one step, one write |
| `Findings.TickWrappedStores` | src/main.cpp:150-157 | With the corrected step the cursor stays on a slot, and with no fault every rotation stores its record |
| `Findings.RequestForcesEarlyRotation` | src/main.cpp:235-241 | As written: a request that leaves an older record in the buffer makes the next pass rotate (test at line 150), though it would not have without the request |
| `Findings.FreshStart` | src/main.cpp:48-52 | A zeroed region with one record written at slot 0 and the cursor there |
| `Findings.Zeroed` | src/main.cpp:14-19 | Zeroed user memory: every slot holds the all-zero record and none is faulty |
| `Findings.ZeroedChoosesFirstSlot` | src/main.cpp:63-85 | On zeroed memory with the clock past 0, the selector returns slot 0: every slot has timestamp 0 and ties keep the lowest |
| `Findings.SetupOnZeroedMemory` | src/main.cpp:48-52 | Start-up on zeroed memory with the clock past 0 reaches the state `FreshStart` of the new record |
| `Findings.EarlyRotationExample` | src/main.cpp:235-241 | As written: one second after writing slot 0 of zeroed memory, a request makes the next pass write at slot 2 |
| `Findings.ServeKeepingBuffer` | src/main.cpp:188-241 | Corrected request: the table is built with its own buffer and the device is left exactly as it was |
| `Findings.ServeKeepingBufferSamePage` | src/main.cpp:188-241 | The corrected request sends the very page the firmware sends |
| `Findings.StepFixed` | src/main.cpp:146-241 | One pass with both corrections sends a page iff a client asked |
| `Findings.RequestsDoNotDisturbLogging` | src/main.cpp:235-241 | With the correction, the device after a pass is the same whether or not a client asked |

## Left out

- WiFi, the NTP client, OTA updates and the HTTP/HTML text: network and UI I/O. A
  request is modelled as a flag, and the page as the gauge value plus the table rows.
- `Serial` logging, and the `ctime` formatting of timestamps in the table. These
  are output only.
- The analog read and the floating-point moisture formula, with its cast to
  `ushort` and then to `u_char`. The moisture byte is a parameter.
- The clock. Each `getEpochTime` call becomes a parameter: `scanTime` for
  the selector's seed, `now` for the rotation test, and `stamp` for the
  timestamp written.
- FastCRC's implementation. The checksum is defined from the CRC-8/SMBUS
  standard itself.
- The ESP SDK's memory calls. A read or write succeeds or fails per offset, and a
  failed read leaves the buffer untouched.
- The byte layout of `struct MoistureData`. With natural alignment it is likely
  12 bytes, so records two blocks apart would overlap, and a 12-byte access at
  block 126 would run past the end of the memory. Each slot is instead an
  independent cell holding a whole record.
- Odd offsets. The firmware never uses them, and the model treats them as
  inaccessible.
- The `short` loop counters in `findOldestOffset` and the table loop. They only
  take values 0 to 128, where no truncation happens.
- Rtc.FindOldestOffsetFreeSlot: stated only for a region with no read fault.
  With faults, the outcome depends on the buffer's leftover checksum:
  `Rtc.ScanFromTakesUnreadableSlot` and `Rtc.BootChoosesUnreadableFirstSlot`
  show two cases.
- Rtc.FindOldestOffsetOldest: stated only for a region with no read fault,
  for the same reason.
- Device.SetupFillsFirstFreeSlot: stated only for a region with no read
  fault, because it rests on `Rtc.FindOldestOffsetFreeSlot`.
- Device.SetupReplacesOldest: stated only for a region with no read fault,
  because it rests on `Rtc.FindOldestOffsetOldest`.
- Device.ServeLeavesLastSlot: stated only for a region with no read fault.
  `Device.ScanLeavesLastReadable` covers the general case.

## Findings

| source | as written | input that shows it | evidently intended | confidence | as-written member | corrected member |
|---|---|---|---|---|---|---|
| src/main.cpp:152-156 | `currentOffset = currentOffset + 2; if (currentOffset > 128) currentOffset = 0;` | cursor 126 with rotation due: the cursor becomes 128, `rtcUserMemoryWrite(128, …)` fails, and that hour's record is never stored | wrap as soon as the next offset reaches 128, so the cursor cycles through the 64 slots | not executed | `Findings.CursorRunsPastLastSlot` | `Findings.TickWrappedStores` |
| src/main.cpp:235-241 | the table loop reads every slot through `rtcData`, which the rotation test treats as the last record written | zeroed memory, start-up writes a record for time 100000 to slot 0 (`Findings.SetupOnZeroedMemory`), a request, then a pass at time 100001: the buffer holds slot 126's zero record, so the pass rotates and writes slot 2 an hour early | building the table must not disturb the record the rotation is timed from | not executed | `Findings.EarlyRotationExample` | `Findings.RequestsDoNotDisturbLogging` |
