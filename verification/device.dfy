/**
 The firmware's persistent state and the steps that change it: start-up
 (`setup`, choosing the slot to write first), the hourly rotation at the top
 of `loop`, and the diagnostic table that a web request triggers.

 The state is the record buffer `rtcData`, the RTC user memory and the
 cursor `currentOffset`, an `unsigned short`. Clock readings and the
 moisture byte come in as parameters: the firmware reads the network clock
 once for the rotation test and again inside `writeRTCData`, so `now` and
 `stamp` are separate inputs.
 */
module Device {
  import opened Bytes
  import opened Record
  import opened Region
  import opened Rtc

  /** The values of an `unsigned short`. */
  type UShort = x: int | 0 <= x < 0x10000

  datatype Device = Device(rtcData: MoistureData, region: Region, currentOffset: UShort)

  predicate Valid(d: Device)
  {
    Wf(d.region)
  }

  // ---------------------------------------------------------------------
  // The cursor
  // ---------------------------------------------------------------------

  /** The cursor step of `loop`: add 2 in 16-bit arithmetic, then go back
      to 0 when the result exceeds 128. */
  function NextCursor(c: UShort): (n: UShort)
    ensures n <= 128
    ensures c <= 126 ==> n == c + 2
    ensures 126 < c < 0xFFFF ==> n == 0
  {
    var s := (c + 2) % 0x10000;
    if s > 128 then 0 else s
  }

  /** The cursor values `loop` can produce from a selector result: even and at most 128. */
  predicate CursorInRange(c: int)
  {
    0 <= c <= 128 && c % 2 == 0
  }

  /** The cursor after `n` rotations. */
  function Advance(c: UShort, n: nat): UShort
    decreases n
  {
    if n == 0 then c else Advance(NextCursor(c), n - 1)
  }

  // ---------------------------------------------------------------------
  // Rotation
  // ---------------------------------------------------------------------

  /** `3600 + rtcData.timeStamp` computed in 32-bit unsigned arithmetic. */
  function OneHourLater(ts: Word32): (later: Word32)
    ensures ts + 3600 < 0x1_0000_0000 ==> later == ts + 3600
    ensures ts + 3600 >= 0x1_0000_0000 ==> later == ts + 3600 - 0x1_0000_0000 && later < 3600
  {
    (3600 + ts) % 0x1_0000_0000
  }

  /** The rotation test of `loop`: the clock reads strictly past one hour
      after the timestamp in the buffer. */
  predicate RotationDue(rtcData: MoistureData, now: Word32)
  {
    now > OneHourLater(rtcData.timeStamp)
  }

  /** The rotation block of `loop`: when due, advance the cursor and write a
      record for the clock reading `stamp` there. */
  function Tick(d: Device, now: Word32, stamp: Word32, moisture: bv8): (d': Device)
    requires Valid(d)
    ensures Valid(d') && d'.region.faulty == d.region.faulty
    ensures !RotationDue(d.rtcData, now) ==> d' == d
    ensures RotationDue(d.rtcData, now) ==>
      && d'.currentOffset == NextCursor(d.currentOffset)
      && d'.rtcData == Seal(stamp, moisture)
    ensures RotationDue(d.rtcData, now) && Accessible(d.region, d'.currentOffset) ==>
      Read(d'.region, d'.currentOffset) == Some(Seal(stamp, moisture))
    ensures !Accessible(d.region, d'.currentOffset) ==> d'.region == d.region
    ensures forall p :: p != d'.currentOffset ==> Read(d'.region, p) == Read(d.region, p)
  {
    if RotationDue(d.rtcData, now) then
      var c := NextCursor(d.currentOffset);
      var w := WriteRTCData(d.region, c, stamp, moisture);
      Device(w.rtcData, w.region, c)
    else
      d
  }

  // ---------------------------------------------------------------------
  // Start-up
  // ---------------------------------------------------------------------

  /** The start-up part of `setup`: with the buffer still zero, choose a
      slot with the clock reading `scanTime`, write a record for `stamp`
      there and make it the cursor. */
  function Setup(region: Region, scanTime: Word32, stamp: Word32, moisture: bv8): (d: Device)
    requires Wf(region)
    ensures Valid(d) && d.region.faulty == region.faulty
    ensures IsSlot(d.currentOffset)
    ensures d.currentOffset == FindOldestOffset(Blank, region, scanTime).offset
    ensures d.rtcData == Seal(stamp, moisture)
    ensures Accessible(region, d.currentOffset) ==> Read(d.region, d.currentOffset) == Some(d.rtcData)
    ensures forall p :: p != d.currentOffset ==> Read(d.region, p) == Read(region, p)
  {
    var s := FindOldestOffset(Blank, region, scanTime);
    var w := WriteRTCData(region, s.offset, stamp, moisture);
    Device(w.rtcData, w.region, s.offset)
  }

  // ---------------------------------------------------------------------
  // The diagnostic table
  // ---------------------------------------------------------------------

  /** One line of the table: what the buffer holds after reading a slot,
      and the checksum `getRTCData` returned. */
  datatype Row = Row(timeStamp: Word32, moistureVal: bv8, storedCrc: bv8, computedCrc: bv8)

  /** The rows for the first `count` slots and the buffer left behind. */
  datatype Table = Table(rows: seq<Row>, rtcData: MoistureData)

  function RowOf(f: Fetched): Row
  {
    Row(f.rtcData.timeStamp, f.rtcData.moistureVal, f.rtcData.crc8, f.crc)
  }

  /** The table loop of `loop` over slots 0, 2, ..., 2 * (count - 1): every
      slot is read through the shared buffer. A readable slot shows its own
      record and recomputed checksum; an unreadable one shows whatever the
      buffer still holds, with a computed checksum of 0. */
  function ScanTable(rtcData: MoistureData, r: Region, count: nat): (t: Table)
    requires Wf(r) && count <= 64
    ensures |t.rows| == count
    ensures forall j :: 0 <= j < count && Accessible(r, 2 * j) ==>
      t.rows[j] == Row(Cell(r, 2 * j).timeStamp, Cell(r, 2 * j).moistureVal,
                       Cell(r, 2 * j).crc8, Checksum(Cell(r, 2 * j).timeStamp))
    ensures forall j :: 0 <= j < count && !Accessible(r, 2 * j) ==> t.rows[j].computedCrc == 0
    decreases count
  {
    if count == 0 then Table([], rtcData)
    else
      var before := ScanTable(rtcData, r, count - 1);
      var f := GetRTCData(before.rtcData, r, 2 * (count - 1));
      Table(before.rows + [RowOf(f)], f.rtcData)
  }

  /** The page a request gets: the gauge value, taken from the buffer
      before the table is built, and the table rows. */
  datatype Page = Page(gauge: bv8, rows: seq<Row>)

  datatype Served = Served(device: Device, page: Page)

  /** Serving a request as the firmware does: the table is built through
      `rtcData`, so the device keeps whatever the last readable slot held. */
  function Serve(d: Device): (s: Served)
    requires Valid(d)
    ensures s.device.region == d.region && s.device.currentOffset == d.currentOffset
    ensures s.page.gauge == d.rtcData.moistureVal && |s.page.rows| == 64
  {
    var t := ScanTable(d.rtcData, d.region, |d.region.cells|);
    Served(d.(rtcData := t.rtcData), Page(d.rtcData.moistureVal, t.rows))
  }

  /** Outcome of one pass of `loop`: the device and, when a client asked,
      the page it was sent. */
  datatype Stepped = Stepped(device: Device, page: Option<Page>)

  /** One pass of `loop`: the rotation block, then a request if one came in. */
  function Step(d: Device, now: Word32, stamp: Word32, moisture: bv8, request: bool): (s: Stepped)
    requires Valid(d)
    ensures Valid(s.device)
    ensures s.page.Some? <==> request
    ensures s.device.currentOffset == Tick(d, now, stamp, moisture).currentOffset
    ensures s.device.region == Tick(d, now, stamp, moisture).region
  {
    var ticked := Tick(d, now, stamp, moisture);
    if request then
      var served := Serve(ticked);
      Stepped(served.device, Some(served.page))
    else
      Stepped(ticked, None)
  }

  // ---------------------------------------------------------------------
  // Properties of the cursor
  // ---------------------------------------------------------------------

  /** The cursor stays even and at most 128; in particular 126 is followed
      by 128 and 128 by 0. */
  lemma CursorStaysInRange(c: UShort)
    requires CursorInRange(c)
    ensures CursorInRange(NextCursor(c))
    ensures c < 128 ==> NextCursor(c) == c + 2
    ensures c == 128 ==> NextCursor(c) == 0
  {
  }

  /** Starting from an even cursor, each rotation adds 2 until 128 is reached. */
  lemma {:induction false} AdvanceCounts(c: UShort, n: nat)
    requires CursorInRange(c) && c + 2 * n <= 128
    ensures Advance(c, n) == c + 2 * n
    decreases n
  {
    if n > 0 {
      CursorStaysInRange(c);
      AdvanceCounts(c + 2, n - 1);
    }
  }

  /** From 0 the cursor visits 0, 2, ..., 128 and then starts over: after
      `n` rotations it stands at 2 * (n mod 65). The ring has 65 positions,
      one more than there are slots. */
  lemma {:induction false} CursorOrbit(n: nat)
    ensures Advance(0, n) == 2 * (n % 65)
    decreases n
  {
    if n > 0 {
      var k := (n - 1) % 65;
      CursorOrbit(n - 1);
      AdvanceFrom(0, n - 1);
      CursorStaysInRange(2 * k);
      ModSucc(n - 1, 65);
    }
  }

  /** Counting modulo `m`, for the two ring sizes used here: one more
      wraps to 0 exactly at `m - 1`. */
  lemma ModSucc(n: nat, m: nat)
    requires m == 64 || m == 65
    ensures (n + 1) % m == if n % m == m - 1 then 0 else n % m + 1
  {
    // The split gives the solver each modulus as a literal; the two
    // branches need no further hint.
    if m == 64 {
    } else {
    }
  }

  /** `Advance` taken one rotation at the far end. */
  lemma {:induction false} AdvanceFrom(c: UShort, n: nat)
    ensures Advance(c, n + 1) == NextCursor(Advance(c, n))
    decreases n
  {
    if n > 0 {
      AdvanceFrom(NextCursor(c), n - 1);
    }
  }

  // ---------------------------------------------------------------------
  // Properties of the rotation
  // ---------------------------------------------------------------------

  /** Rotation fires exactly when the clock is strictly past the
      timestamp plus one hour, where the sum wraps past 2^32. */
  lemma RotationThreshold(rec: MoistureData, now: Word32)
    ensures rec.timeStamp + 3600 < 0x1_0000_0000 ==>
      (RotationDue(rec, now) <==> now > rec.timeStamp + 3600)
    ensures rec.timeStamp + 3600 >= 0x1_0000_0000 ==>
      (RotationDue(rec, now) <==> now > rec.timeStamp + 3600 - 0x1_0000_0000)
  {
  }

  /** A tick changes at most one slot and moves the cursor at most one step. */
  lemma TickAtMostOneStep(d: Device, now: Word32, stamp: Word32, moisture: bv8)
    requires Valid(d)
    ensures var d' := Tick(d, now, stamp, moisture);
      d'.currentOffset == d.currentOffset || d'.currentOffset == NextCursor(d.currentOffset)
    ensures var d' := Tick(d, now, stamp, moisture);
      d' != d ==> RotationDue(d.rtcData, now)
  {
  }

  /** After a successful rotation the new record reads back and verifies,
      and the buffer holds it: the next rotation is measured from its stamp. */
  lemma TickRoundTrip(d: Device, now: Word32, stamp: Word32, moisture: bv8)
    requires Valid(d) && RotationDue(d.rtcData, now)
    requires Accessible(d.region, NextCursor(d.currentOffset))
    ensures var d' := Tick(d, now, stamp, moisture);
      && PrintRTCData(d'.rtcData, d'.region, d'.currentOffset) == Printed(true, Seal(stamp, moisture))
      && (RotationDue(d'.rtcData, now) <==> now > OneHourLater(stamp))
  {
  }

  /** A write that fails still moves the cursor and refreshes the buffer,
      so the next rotation is an hour away although nothing was stored. */
  lemma TickFailedWrite(d: Device, now: Word32, stamp: Word32, moisture: bv8)
    requires Valid(d) && RotationDue(d.rtcData, now)
    requires !Accessible(d.region, NextCursor(d.currentOffset))
    ensures var d' := Tick(d, now, stamp, moisture);
      && d'.region == d.region
      && d'.currentOffset == NextCursor(d.currentOffset)
      && d'.rtcData.timeStamp == stamp
      && IsValid(d'.rtcData)
  {
  }

  // ---------------------------------------------------------------------
  // Properties of start-up
  // ---------------------------------------------------------------------

  /** At start-up in a healthy region holding a slot that fails
      verification, the first such slot receives the new record. */
  lemma SetupFillsFirstFreeSlot(region: Region, scanTime: Word32, stamp: Word32, moisture: bv8, q: int)
    requires Wf(region) && Healthy(region) && IsFirstInvalid(region, q)
    ensures var d := Setup(region, scanTime, stamp, moisture);
      d.currentOffset == q && Read(d.region, q) == Some(Seal(stamp, moisture))
  {
    FindOldestOffsetFreeSlot(Blank, region, scanTime, q);
  }

  /** At start-up in a healthy region whose slots all verify, the oldest
      record older than `scanTime` is overwritten, or slot 0 when there is
      none. */
  lemma SetupReplacesOldest(region: Region, scanTime: Word32, stamp: Word32, moisture: bv8)
    requires Wf(region) && Healthy(region) && AllValid(region)
    ensures var d := Setup(region, scanTime, stamp, moisture);
      IsOldestChoice(region, scanTime, d.currentOffset) && Read(d.region, d.currentOffset) == Some(Seal(stamp, moisture))
  {
    FindOldestOffsetOldest(Blank, region, scanTime);
  }

  // ---------------------------------------------------------------------
  // Properties of the diagnostic table
  // ---------------------------------------------------------------------

  /** The table leaves the buffer holding the last readable slot scanned. */
  lemma {:induction false} ScanLeavesLastReadable(rtcData: MoistureData, r: Region, count: nat, j: nat)
    requires Wf(r) && j < count <= 64 && Accessible(r, 2 * j)
    requires forall i :: j < i < count ==> !Accessible(r, 2 * i)
    ensures ScanTable(rtcData, r, count).rtcData == Cell(r, 2 * j)
    decreases count
  {
    if count - 1 > j {
      ScanLeavesLastReadable(rtcData, r, count - 1, j);
    }
  }

  /** When no slot scanned can be read, the buffer is left as it was. */
  lemma {:induction false} ScanKeepsUnreadBuffer(rtcData: MoistureData, r: Region, count: nat)
    requires Wf(r) && count <= 64
    requires forall i :: 0 <= i < count ==> !Accessible(r, 2 * i)
    ensures ScanTable(rtcData, r, count).rtcData == rtcData
    decreases count
  {
    if count > 0 {
      ScanKeepsUnreadBuffer(rtcData, r, count - 1);
    }
  }

  /** In a healthy region a request leaves the record of the last slot,
      offset 126, in the buffer, whatever was written last. */
  lemma ServeLeavesLastSlot(d: Device)
    requires Valid(d) && Healthy(d.region)
    ensures Cell(d.region, 126) == Serve(d).device.rtcData
  {
    var n := |d.region.cells|;
    ScanLeavesLastReadable(d.rtcData, d.region, n, n - 1);
  }

  /** Each readable slot's row shows the stored and the recomputed
      checksum, which agree exactly when the slot verifies. */
  lemma ServeShowsVerdict(d: Device, j: int)
    requires Valid(d) && 0 <= j < 64 && Accessible(d.region, 2 * j)
    ensures var row := Serve(d).page.rows[j];
      row.storedCrc == row.computedCrc <==> IsValid(Cell(d.region, 2 * j))
  {
  }

  /** In a healthy region the table does not depend on the buffer, so
      serving again yields the same rows. */
  lemma ServeRowsRepeat(d: Device)
    requires Valid(d) && Healthy(d.region)
    ensures Serve(Serve(d).device).page.rows == Serve(d).page.rows
  {
    var n := |d.region.cells|;
    ScanRowsIgnoreBuffer(d.rtcData, Serve(d).device.rtcData, d.region, n);
  }

  /** In a healthy region the rows of the table are the same whatever the
      buffer held when the scan started. */
  lemma {:induction false} ScanRowsIgnoreBuffer(a: MoistureData, b: MoistureData, r: Region, count: nat)
    requires Wf(r) && Healthy(r) && count <= 64
    ensures ScanTable(a, r, count).rows == ScanTable(b, r, count).rows
    decreases count
  {
    if count > 0 {
      ScanRowsIgnoreBuffer(a, b, r, count - 1);
      SlotOfIndex(count - 1);
    }
  }
}
