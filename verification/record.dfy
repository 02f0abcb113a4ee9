/**
 One entry of the log, `struct MoistureData` of the firmware: an 8-bit
 checksum, a 32-bit timestamp (seconds since the Unix epoch, an `unsigned
 long`, which is 32 bits wide on the ESP8266) and one moisture byte.

 The checksum covers the four bytes of the timestamp as they lie in memory
 (little-endian) and nothing else: the moisture byte is not protected.
 */
module Record {
  import Crc8
  import opened Bytes

  datatype MoistureData = MoistureData(crc8: bv8, timeStamp: Word32, moistureVal: bv8)

  /** The all-zero buffer: the state of the global `rtcData` at boot. */
  const Blank := MoistureData(0, 0, 0)

  /** CRC-8/SMBUS over the in-memory bytes of a timestamp. */
  function Checksum(ts: Word32): bv8
  {
    Crc8.Smbus(LeBytes(ts))
  }

  /** A record verifies when its stored checksum matches the one recomputed
      from its timestamp. */
  predicate IsValid(r: MoistureData)
  {
    r.crc8 == Checksum(r.timeStamp)
  }

  /** The record the firmware fills in before a write: timestamp and
      moisture as given, checksum recomputed. */
  function Seal(ts: Word32, moisture: bv8): (r: MoistureData)
    ensures IsValid(r)
    ensures r.timeStamp == ts && r.moistureVal == moisture
  {
    MoistureData(Checksum(ts), ts, moisture)
  }

  /** The timestamp whose in-memory image is that of `ts` with byte `j` replaced by `v`. */
  function ReplaceTimestampByte(ts: Word32, j: nat, v: bv8): Word32
    requires j < 4
  {
    FromLeBytes(LeBytes(ts)[j := v])
  }

  /** The timestamp with byte `j` of its in-memory image XORed with `mask`. */
  function CorruptTimestampByte(ts: Word32, j: nat, mask: bv8): Word32
    requires j < 4
  {
    ReplaceTimestampByte(ts, j, LeBytes(ts)[j] ^ mask)
  }

  // ---------------------------------------------------------------------
  // Properties
  // ---------------------------------------------------------------------

  /** Validity is decided by timestamp and checksum alone: any moisture
      value may replace the stored one without changing the verdict. */
  lemma ValidityIgnoresMoisture(r: MoistureData, moisture: bv8)
    ensures IsValid(r.(moistureVal := moisture)) <==> IsValid(r)
  {
  }

  /** A record is determined by its timestamp and moisture once it is
      valid: sealing them again gives back the same record. */
  lemma SealIsOnlyValidRecord(r: MoistureData)
    ensures IsValid(r) <==> r == Seal(r.timeStamp, r.moistureVal)
  {
  }

  /** Flipping any non-empty set of bits inside one byte of a valid
      record's timestamp makes the record fail verification; in particular
      every single-bit error in the timestamp is caught. */
  lemma TimestampCorruptionDetected(r: MoistureData, j: nat, mask: bv8)
    requires IsValid(r)
    requires j < 4 && mask != 0
    ensures CorruptTimestampByte(r.timeStamp, j, mask) != r.timeStamp
    ensures !IsValid(r.(timeStamp := CorruptTimestampByte(r.timeStamp, j, mask)))
  {
    CorruptionChangesTimestamp(r.timeStamp, j, mask);
    var ts' := CorruptTimestampByte(r.timeStamp, j, mask);
    CorruptionChangesChecksum(r.timeStamp, j, mask);
    var r' := r.(timeStamp := ts');
    assert r'.crc8 == Checksum(r.timeStamp) != Checksum(r'.timeStamp);
  }

  /** The checksum of a timestamp with bits flipped inside one byte differs
      from the checksum of the original. */
  lemma CorruptionChangesChecksum(ts: Word32, j: nat, mask: bv8)
    requires j < 4 && mask != 0
    ensures Checksum(CorruptTimestampByte(ts, j, mask)) != Checksum(ts)
  {
    var b := LeBytes(ts)[j];
    XorChanges(b, mask);
    ByteReplacementDetected(ts, j, b ^ mask);
  }

  /** Replacing one byte of the in-memory image of a timestamp by a
      different byte changes its checksum. */
  lemma ByteReplacementDetected(ts: Word32, j: nat, v: bv8)
    requires j < 4 && v != LeBytes(ts)[j]
    ensures Checksum(ReplaceTimestampByte(ts, j, v)) != Checksum(ts)
  {
    var bytes := LeBytes(ts);
    LeBytesRoundTrip(ts, bytes[j := v]);
    Crc8.SmbusFromDetectsByteChange(0x00, bytes, j, v);
  }

  lemma XorChanges(b: bv8, mask: bv8)
    requires mask != 0
    ensures b ^ mask != b
  {
  }

  /** Corruption confined to the timestamp really changes the timestamp. */
  lemma CorruptionChangesTimestamp(ts: Word32, j: nat, mask: bv8)
    requires j < 4 && mask != 0
    ensures CorruptTimestampByte(ts, j, mask) != ts
  {
    var bytes := LeBytes(ts);
    var v := bytes[j] ^ mask;
    assert v != bytes[j] by { XorChanges(bytes[j], mask); }
    var changed := bytes[j := v];
    LeBytesRoundTrip(ts, changed);
    assert changed[j] != bytes[j];
  }

  /** Flipping bits of the stored checksum of a valid record is detected. */
  lemma ChecksumCorruptionDetected(r: MoistureData, mask: bv8)
    requires IsValid(r) && mask != 0
    ensures !IsValid(r.(crc8 := r.crc8 ^ mask))
  {
  }

  /** The all-zero buffer verifies: CRC-8/SMBUS starts from zero, so four
      zero bytes have checksum zero. A never-written, zeroed slot therefore
      reads as a valid record with timestamp 0. */
  lemma BlankIsValid()
    ensures IsValid(Blank)
  {
    Crc8.CheckZeros();
  }
}
