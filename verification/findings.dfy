/**
 Two places where the firmware does not do what it evidently means to do,
 each modelled as written (in `Device`) with the input that shows the
 discrepancy, next to a corrected definition and the property it was meant
 to have.

 1. The cursor wraps only once it exceeds 128, so it stops at 128, an offset
    past the last slot: the write there fails and that hour's record exists
    only in the buffer. Wrapping as soon as the next offset reaches 128
    keeps the cursor on the 64 slots.

 2. The diagnostic table is read through the shared buffer `rtcData`, so
    after a request the buffer holds the last slot's record instead of the
    last record written. The rotation test measures the hour from that
    record, so a request can make the next pass write a new record at once.
    Building the table with a buffer of its own leaves the device as it was.
 */
module Findings {
  import opened Bytes
  import opened Record
  import opened Region
  import opened Rtc
  import opened Device

  // ---------------------------------------------------------------------
  // 1. The cursor runs onto offset 128
  // ---------------------------------------------------------------------

  /** As written: from the last slot the cursor moves to 128, the write
      there fails in every region, and the new record is kept only in the
      buffer; one rotation later the cursor is back at 0. */
  lemma CursorRunsPastLastSlot(d: Device, now: Word32, stamp: Word32, moisture: bv8, later: Word32)
    requires Valid(d) && d.currentOffset == 126 && RotationDue(d.rtcData, now)
    requires later > OneHourLater(stamp)
    ensures var d' := Tick(d, now, stamp, moisture);
      && d'.currentOffset == 128
      && d'.region == d.region
      && d'.rtcData == Seal(stamp, moisture)
      && Tick(d', later, stamp, moisture).currentOffset == 0
  {
  }

  /** Corrected cursor step: back to 0 as soon as the next offset would be
      128 or more. */
  function NextSlot(c: UShort): (n: UShort)
  {
    var s := (c + 2) % 0x10000;
    if s >= 128 then 0 else s
  }

  /** The corrected cursor after `n` rotations. */
  function AdvanceSlots(c: UShort, n: nat): UShort
    decreases n
  {
    if n == 0 then c else AdvanceSlots(NextSlot(c), n - 1)
  }

  /** The corrected step never leaves the slots: from a slot it goes to the
      next one, and from the last slot back to the first. */
  lemma NextSlotStaysOnSlots(c: UShort)
    requires IsSlot(c)
    ensures IsSlot(NextSlot(c))
    ensures c < 126 ==> NextSlot(c) == c + 2
    ensures c == 126 ==> NextSlot(c) == 0
  {
  }

  /** `AdvanceSlots` taken one rotation at the far end. */
  lemma {:induction false} AdvanceSlotsFrom(c: UShort, n: nat)
    ensures AdvanceSlots(c, n + 1) == NextSlot(AdvanceSlots(c, n))
    decreases n
  {
    if n > 0 {
      AdvanceSlotsFrom(NextSlot(c), n - 1);
    }
  }

  /** The corrected cursor cycles through all 64 slots: after `n`
      rotations from 0 it stands at slot 2 * (n mod 64). */
  lemma {:induction false} SlotOrbit(n: nat)
    ensures AdvanceSlots(0, n) == 2 * (n % 64)
    decreases n
  {
    if n > 0 {
      var k := (n - 1) % 64;
      SlotOrbit(n - 1);
      AdvanceSlotsFrom(0, n - 1);
      NextSlotStaysOnSlots(2 * k);
      ModSucc(n - 1, 64);
    }
  }

  /** The rotation block with the corrected cursor step. */
  function TickWrapped(d: Device, now: Word32, stamp: Word32, moisture: bv8): (d': Device)
    requires Valid(d)
    ensures Valid(d') && d'.region.faulty == d.region.faulty
    ensures !RotationDue(d.rtcData, now) ==> d' == d
    ensures RotationDue(d.rtcData, now) ==>
      d'.currentOffset == NextSlot(d.currentOffset) && d'.rtcData == Seal(stamp, moisture)
    ensures forall p :: p != d'.currentOffset ==> Read(d'.region, p) == Read(d.region, p)
  {
    if RotationDue(d.rtcData, now) then
      var c := NextSlot(d.currentOffset);
      var w := WriteRTCData(d.region, c, stamp, moisture);
      Device(w.rtcData, w.region, c)
    else
      d
  }

  /** With the corrected step, a cursor on a slot stays on a slot, and in a
      healthy region every rotation stores its record. */
  lemma TickWrappedStores(d: Device, now: Word32, stamp: Word32, moisture: bv8)
    requires Valid(d) && Healthy(d.region) && IsSlot(d.currentOffset)
    ensures var d' := TickWrapped(d, now, stamp, moisture);
      && IsSlot(d'.currentOffset)
      && (RotationDue(d.rtcData, now) ==> Read(d'.region, d'.currentOffset) == Some(Seal(stamp, moisture)))
  {
    NextSlotStaysOnSlots(d.currentOffset);
  }

  // ---------------------------------------------------------------------
  // 2. A request overwrites the rotation clock
  // ---------------------------------------------------------------------

  /** As written: in a healthy region, if the record just written is less
      than an hour old at `now` but the last slot's record is older, a
      request served before `now` makes the rotation at `now` fire; without
      the request it would not. */
  lemma RequestForcesEarlyRotation(d: Device, before: Word32, now: Word32, stamp: Word32, moisture: bv8)
    requires Valid(d) && Healthy(d.region)
    requires !RotationDue(d.rtcData, before) && !RotationDue(d.rtcData, now)
    requires RotationDue(Cell(d.region, 126), now)
    ensures Step(d, now, stamp, moisture, false).device == d
    ensures var served := Step(d, before, stamp, moisture, true).device;
      Step(served, now, stamp, moisture, false).device.currentOffset == NextCursor(d.currentOffset)
  {
    ServeLeavesLastSlot(d);
  }

  /** Fresh memory, every slot zeroed (which verifies, with timestamp 0),
      after `last` was written to slot 0 with the cursor there. */
  function FreshStart(last: MoistureData): (d: Device)
    ensures Valid(d) && Healthy(d.region)
    ensures d.rtcData == last && d.currentOffset == 0
    ensures Cell(d.region, 0) == last && Cell(d.region, 126) == Blank
  {
    Device(last, Region(seq(64, i => if i == 0 then last else Blank), {}), 0)
  }

  /** RTC user memory with every slot zeroed and no fault. */
  function Zeroed(): (r: Region)
    ensures Wf(r) && Healthy(r)
    ensures forall o :: IsSlot(o) ==> Cell(r, o) == Blank
  {
    Region(seq(64, i => Blank), {})
  }

  /** On zeroed memory every slot verifies with timestamp 0, so with the
      clock past 0 the selector keeps the first slot it sees, slot 0. */
  lemma ZeroedChoosesFirstSlot(scanTime: Word32)
    requires scanTime > 0
    ensures FindOldestOffset(Blank, Zeroed(), scanTime).offset == 0
  {
    var z := Zeroed();
    assert AllValid(z) by {
      BlankIsValid();
      forall p | IsSlot(p)
        ensures IsValid(Cell(z, p))
      {
        assert Cell(z, p) == Blank;
      }
    }
    FindOldestOffsetOldest(Blank, z, scanTime);
    assert !NoneOlderBelow(z, scanTime, 128) by {
      assert IsSlot(0) && Cell(z, 0).timeStamp < scanTime;
    }
    var o := FindOldestOffset(Blank, z, scanTime).offset;
    assert IsOldestBelow(z, scanTime, 128, o);
    assert o == 0;
  }

  /** Start-up on zeroed memory, with the clock past 0, reaches
      `FreshStart`: the record for `stamp` is written to slot 0. */
  lemma SetupOnZeroedMemory(scanTime: Word32, stamp: Word32, moisture: bv8)
    requires scanTime > 0
    ensures Setup(Zeroed(), scanTime, stamp, moisture) == FreshStart(Seal(stamp, moisture))
  {
    var z := Zeroed();
    var d := Setup(z, scanTime, stamp, moisture);
    ZeroedChoosesFirstSlot(scanTime);
    var start := FreshStart(Seal(stamp, moisture));
    assert d.region.cells == start.region.cells by {
      forall j | 0 <= j < 64
        ensures d.region.cells[j] == start.region.cells[j]
      {
        SlotOfIndex(j);
        assert Read(d.region, 2 * j) == Read(z, 2 * j) || j == 0;
      }
    }
  }

  /** A concrete run: one second after a record for time 100000 was
      written to slot 0 of fresh memory, a request makes the next pass
      write again, at slot 2. */
  lemma EarlyRotationExample(last: MoistureData, stamp: Word32, moisture: bv8)
    requires last.timeStamp == 100000
    ensures Step(FreshStart(last), 100001, stamp, moisture, false).device == FreshStart(last)
    ensures Step(Step(FreshStart(last), 100001, stamp, moisture, true).device, 100001, stamp, moisture, false).device.currentOffset == 2
  {
    RequestForcesEarlyRotation(FreshStart(last), 100001, 100001, stamp, moisture);
    CursorStaysInRange(0);
  }

  /** Corrected request handling: the table is built with a buffer of its
      own, so the device is left exactly as it was. */
  function ServeKeepingBuffer(d: Device): (s: Served)
    requires Valid(d)
    ensures s.device == d
    ensures s.page.gauge == d.rtcData.moistureVal && |s.page.rows| == 64
  {
    var t := ScanTable(d.rtcData, d.region, |d.region.cells|);
    Served(d, Page(d.rtcData.moistureVal, t.rows))
  }

  /** One pass of `loop` with both corrections. */
  function StepFixed(d: Device, now: Word32, stamp: Word32, moisture: bv8, request: bool): (s: Stepped)
    requires Valid(d)
    ensures Valid(s.device)
    ensures s.page.Some? <==> request
  {
    var ticked := TickWrapped(d, now, stamp, moisture);
    if request then
      var served := ServeKeepingBuffer(ticked);
      Stepped(served.device, Some(served.page))
    else
      Stepped(ticked, None)
  }

  /** The corrected page is the page the firmware sends. */
  lemma ServeKeepingBufferSamePage(d: Device)
    requires Valid(d)
    ensures ServeKeepingBuffer(d).page == Serve(d).page
  {
  }

  /** With the correction, requests never change what is logged or when:
      the device after a pass is the same whether or not a client asked. */
  lemma RequestsDoNotDisturbLogging(d: Device, now: Word32, stamp: Word32, moisture: bv8)
    requires Valid(d)
    ensures StepFixed(d, now, stamp, moisture, true).device == StepFixed(d, now, stamp, moisture, false).device
    ensures StepFixed(d, now, stamp, moisture, true).device.rtcData == TickWrapped(d, now, stamp, moisture).rtcData
  {
  }
}
