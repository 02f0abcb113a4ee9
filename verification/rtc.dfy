/**
 The record-level routines of the firmware: `getRTCData`, `printRTCData`,
 `writeRTCData` and the start-up slot selector `findOldestOffset`.

 All of them go through the one process-wide buffer `rtcData`: a read copies
 the slot into it (a failed read leaves it as it was), a write fills it in and
 stores it. Each routine here therefore takes the buffer's current contents
 and returns its new contents alongside its result.
 */
module Rtc {
  import opened Bytes
  import opened Record
  import opened Region

  // ---------------------------------------------------------------------
  // Reading a slot
  // ---------------------------------------------------------------------

  /** Result of `getRTCData`: the checksum it returns and the buffer afterwards. */
  datatype Fetched = Fetched(crc: bv8, rtcData: MoistureData)

  /** `getRTCData`: reads the slot into the buffer and returns the checksum
      recomputed from the timestamp read, or 0 when the read fails (the
      buffer then keeps its previous contents). */
  function GetRTCData(rtcData: MoistureData, r: Region, offset: int): (f: Fetched)
    requires Wf(r)
    ensures Accessible(r, offset) ==> f.rtcData == Cell(r, offset)
    ensures Accessible(r, offset) ==> f.crc == Checksum(f.rtcData.timeStamp)
    ensures Accessible(r, offset) ==> (f.crc == f.rtcData.crc8 <==> IsValid(f.rtcData))
    ensures !Accessible(r, offset) ==> f.crc == 0 && f.rtcData == rtcData
  {
    match Read(r, offset)
    case Some(rec) => Fetched(Checksum(rec.timeStamp), rec)
    case None => Fetched(0, rtcData)
  }

  /** Result of `printRTCData`: whether the slot verified, and the buffer afterwards. */
  datatype Printed = Printed(valid: bool, rtcData: MoistureData)

  /** `printRTCData` without its logging: reads the slot into the buffer and
      reports whether it verifies; a failed read reports false. */
  function PrintRTCData(rtcData: MoistureData, r: Region, offset: int): (p: Printed)
    requires Wf(r)
    ensures p.valid <==> Accessible(r, offset) && IsValid(Cell(r, offset))
    ensures p.rtcData == if Accessible(r, offset) then Cell(r, offset) else rtcData
  {
    match Read(r, offset)
    case Some(rec) => Printed(rec.crc8 == Checksum(rec.timeStamp), rec)
    case None => Printed(false, rtcData)
  }

  // ---------------------------------------------------------------------
  // Writing a slot
  // ---------------------------------------------------------------------

  /** Result of `writeRTCData`: the buffer and region afterwards, and whether
      the medium accepted the write. */
  datatype Written = Written(rtcData: MoistureData, region: Region, ok: bool)

  /** `writeRTCData` without the sensor arithmetic: fills the buffer with
      the clock reading `stamp`, the moisture byte and the checksum of the
      stamp, stores it at `offset` and, when the store succeeds, reads the
      slot back through `printRTCData`. Every field of the buffer is
      overwritten, so its previous contents do not matter. */
  function WriteRTCData(r: Region, offset: int, stamp: Word32, moisture: bv8): (w: Written)
    requires Wf(r)
    ensures Wf(w.region) && w.region.faulty == r.faulty
    ensures w.ok <==> Accessible(r, offset)
    ensures w.rtcData == Seal(stamp, moisture)
    ensures w.ok ==> Read(w.region, offset) == Some(w.rtcData)
    ensures w.ok ==> PrintRTCData(w.rtcData, w.region, offset).valid
    ensures !w.ok ==> w.region == r
    ensures forall p :: p != offset ==> Read(w.region, p) == Read(r, p)
  {
    var rec := Seal(stamp, moisture);
    match Write(r, offset, rec)
    case None => Written(rec, r, false)
    case Some(r') =>
      ReadAfterWriteEverywhere(r, offset, rec);
      var back := PrintRTCData(rec, r', offset);
      Written(back.rtcData, r', true)
  }

  /** `ReadAfterWrite`, for every other offset at once. */
  lemma ReadAfterWriteEverywhere(r: Region, o: int, rec: MoistureData)
    requires Wf(r) && Write(r, o, rec).Some?
    ensures Read(Write(r, o, rec).value, o) == Some(rec)
    ensures forall p :: p != o ==> Read(Write(r, o, rec).value, p) == Read(r, p)
  {
    ReadAfterWrite(r, o, rec, o);
    forall p | p != o
      ensures Read(Write(r, o, rec).value, p) == Read(r, p)
    {
      ReadAfterWrite(r, o, rec, p);
    }
  }

  // ---------------------------------------------------------------------
  // Choosing the start-up slot
  // ---------------------------------------------------------------------

  /** Result of `findOldestOffset`: the chosen offset and the buffer afterwards. */
  datatype Selection = Selection(offset: nat, rtcData: MoistureData)

  /** The loop of `findOldestOffset` from offset `cur` on, with running
      minimum `oldTime` found at `oldOffset`. A slot passes when the
      checksum `getRTCData` returns equals the `crc8` now in the buffer;
      the first slot that does not pass is returned at once. */
  function ScanFrom(rtcData: MoistureData, r: Region, cur: nat, oldTime: Word32, oldOffset: nat): (s: Selection)
    requires Wf(r) && cur % 2 == 0 && cur <= 128 && IsSlot(oldOffset)
    ensures IsSlot(s.offset)
    ensures s.offset == oldOffset || cur <= s.offset
    decreases 128 - cur
  {
    if cur >= 128 then Selection(oldOffset, rtcData)
    else
      var f := GetRTCData(rtcData, r, cur);
      if f.crc == f.rtcData.crc8 then
        if oldTime > f.rtcData.timeStamp then
          ScanFrom(f.rtcData, r, cur + 2, f.rtcData.timeStamp, cur)
        else
          ScanFrom(f.rtcData, r, cur + 2, oldTime, oldOffset)
      else
        Selection(cur, f.rtcData)
  }

  /** `findOldestOffset`: scans offsets 0, 2, ..., 126 with the running
      minimum seeded by the clock reading `now` at offset 0. */
  function FindOldestOffset(rtcData: MoistureData, r: Region, now: Word32): (s: Selection)
    requires Wf(r)
    ensures IsSlot(s.offset)
  {
    ScanFrom(rtcData, r, 0, now, 0)
  }

  // ---------------------------------------------------------------------
  // What the selector is meant to choose
  // ---------------------------------------------------------------------

  /** Every slot below offset `n` verifies. */
  ghost predicate AllValidBelow(r: Region, n: int)
    requires Wf(r)
  {
    forall p :: IsSlot(p) && p < n ==> IsValid(Cell(r, p))
  }

  ghost predicate AllValid(r: Region)
    requires Wf(r)
  {
    AllValidBelow(r, 128)
  }

  /** `o` is the first slot, in scan order, that fails verification. */
  ghost predicate IsFirstInvalid(r: Region, o: int)
    requires Wf(r)
  {
    IsSlot(o) && !IsValid(Cell(r, o)) && AllValidBelow(r, o)
  }

  /** No slot below offset `n` holds a timestamp older than `now`. */
  ghost predicate NoneOlderBelow(r: Region, now: Word32, n: int)
    requires Wf(r)
  {
    forall p :: IsSlot(p) && p < n ==> now <= Cell(r, p).timeStamp
  }

  /** Among the slots below offset `n`, `o` holds a timestamp older than
      `now` that no slot undercuts, and no earlier slot holds the same one. */
  ghost predicate IsOldestBelow(r: Region, now: Word32, n: int, o: int)
    requires Wf(r)
  {
    && IsSlot(o) && o < n
    && Cell(r, o).timeStamp < now
    && (forall p :: IsSlot(p) && p < n ==> Cell(r, o).timeStamp <= Cell(r, p).timeStamp)
    && (forall p :: IsSlot(p) && p < o ==> Cell(r, o).timeStamp < Cell(r, p).timeStamp)
  }

  /** The choice among valid slots: the oldest slot older than `now`, the
      lowest such on a tie, or offset 0 when there is none. */
  ghost predicate IsOldestChoice(r: Region, now: Word32, o: int)
    requires Wf(r)
  {
    if NoneOlderBelow(r, now, 128) then o == 0 else IsOldestBelow(r, now, 128, o)
  }

  /** The running minimum of the scan after all slots below `n`. */
  ghost predicate Tracks(r: Region, now: Word32, n: int, t: Word32, o: int)
    requires Wf(r)
  {
    if NoneOlderBelow(r, now, n) then o == 0 && t == now
    else IsOldestBelow(r, now, n, o) && t == Cell(r, o).timeStamp
  }

  /** Every slot from `cur` up to, not including, `stop` can be read and
      verifies. Stated slot by slot, the way the scan visits them. */
  ghost predicate PassesFrom(r: Region, cur: int, stop: int)
    requires Wf(r)
    decreases stop - cur
  {
    cur >= stop || (IsSlot(cur) && Accessible(r, cur) && IsValid(Cell(r, cur)) && PassesFrom(r, cur + 2, stop))
  }

  /** In a healthy region, a prefix of verifying slots is passed slot by slot. */
  lemma {:induction false} PassesFromPrefix(r: Region, cur: nat, stop: int)
    requires Wf(r) && Healthy(r) && cur % 2 == 0 && stop <= 128 && AllValidBelow(r, stop)
    ensures PassesFrom(r, cur, stop)
    decreases stop - cur
  {
    if cur < stop {
      assert IsSlot(cur) && IsValid(Cell(r, cur));
      NextOffset(cur);
      PassesFromPrefix(r, cur + 2, stop);
    }
  }

  /** Past slots that verify, the scan loop stops at the first slot that
      fails verification. */
  lemma {:induction false} ScanFromStopsAtFirstInvalid(rtcData: MoistureData, r: Region, cur: nat, t: Word32, o: nat, q: int)
    requires Wf(r) && cur % 2 == 0 && cur <= q && IsSlot(o)
    requires IsSlot(q) && Accessible(r, q) && !IsValid(Cell(r, q))
    requires PassesFrom(r, cur, q)
    ensures ScanFrom(rtcData, r, cur, t, o).offset == q
    decreases q - cur
  {
    if cur == q {
      ScanFromStopsAtInvalid(rtcData, r, cur, t, o);
    } else {
      assert IsSlot(cur) && Accessible(r, cur) && IsValid(Cell(r, cur)) && PassesFrom(r, cur + 2, q);
      EvenGap(cur, q);
      var t', o' := ScanFromValidStep(rtcData, r, cur, t, o);
      ScanFromStopsAtFirstInvalid(Cell(r, cur), r, cur + 2, t', o', q);
    }
  }

  /** A readable slot that fails verification ends the scan there. */
  lemma ScanFromStopsAtInvalid(rtcData: MoistureData, r: Region, cur: nat, t: Word32, o: nat)
    requires Wf(r) && IsSlot(cur) && IsSlot(o)
    requires Accessible(r, cur) && !IsValid(Cell(r, cur))
    ensures ScanFrom(rtcData, r, cur, t, o) == Selection(cur, Cell(r, cur))
  {
  }

  /** The scan over slots that are known to verify, on the records alone:
      a running minimum that moves to a slot exactly when the slot's
      timestamp is below it. */
  ghost function MinimumFrom(r: Region, cur: nat, t: Word32, o: nat): (m: nat)
    requires Wf(r) && cur % 2 == 0 && cur <= 128 && IsSlot(o)
    decreases 128 - cur
  {
    if cur >= 128 then o
    else if t > Cell(r, cur).timeStamp then MinimumFrom(r, cur + 2, Cell(r, cur).timeStamp, cur)
    else MinimumFrom(r, cur + 2, t, o)
  }

  /** Over slots that all verify, the scan loop is the running minimum. */
  lemma {:induction false} ScanFromIsMinimum(rtcData: MoistureData, r: Region, cur: nat, t: Word32, o: nat)
    requires Wf(r) && cur % 2 == 0 && cur <= 128 && IsSlot(o)
    requires PassesFrom(r, cur, 128)
    ensures ScanFrom(rtcData, r, cur, t, o).offset == MinimumFrom(r, cur, t, o)
    decreases 128 - cur
  {
    if cur < 128 {
      assert IsSlot(cur) && Accessible(r, cur) && IsValid(Cell(r, cur)) && PassesFrom(r, cur + 2, 128);
      NextOffset(cur);
      var t', o' := ScanFromMinimumStep(rtcData, r, cur, t, o);
      ScanFromIsMinimum(Cell(r, cur), r, cur + 2, t', o');
    } else {
      ScanFromAtEnd(rtcData, r, t, o);
    }
  }

  /** Over one slot that verifies, the scan loop and the running minimum
      move to the same state. */
  lemma ScanFromMinimumStep(rtcData: MoistureData, r: Region, cur: nat, t: Word32, o: nat) returns (t': Word32, o': nat)
    requires Wf(r) && IsSlot(cur) && cur <= 126 && IsSlot(o)
    requires Accessible(r, cur) && IsValid(Cell(r, cur))
    ensures IsSlot(o') && (cur + 2) % 2 == 0
    ensures MinimumFrom(r, cur, t, o) == MinimumFrom(r, cur + 2, t', o')
    ensures ScanFrom(rtcData, r, cur, t, o) == ScanFrom(Cell(r, cur), r, cur + 2, t', o')
  {
    t', o' := ScanFromValidStep(rtcData, r, cur, t, o);
    MinimumFromStep(r, cur, t, o);
  }

  /** Past the last block the scan loop returns the running minimum. */
  lemma ScanFromAtEnd(rtcData: MoistureData, r: Region, t: Word32, o: nat)
    requires Wf(r) && IsSlot(o)
    ensures ScanFrom(rtcData, r, 128, t, o) == Selection(o, rtcData)
    ensures MinimumFrom(r, 128, t, o) == o
  {
  }

  /** The running minimum after one more slot. */
  lemma MinimumFromStep(r: Region, cur: nat, t: Word32, o: nat)
    requires Wf(r) && IsSlot(cur) && cur <= 126 && IsSlot(o)
    ensures t > Cell(r, cur).timeStamp ==>
      MinimumFrom(r, cur, t, o) == MinimumFrom(r, cur + 2, Cell(r, cur).timeStamp, cur)
    ensures !(t > Cell(r, cur).timeStamp) ==>
      MinimumFrom(r, cur, t, o) == MinimumFrom(r, cur + 2, t, o)
  {
  }

  /** The running minimum, started in a state that tracks the slots below
      `cur`, ends with the oldest choice. */
  lemma {:induction false} MinimumIsOldest(r: Region, now: Word32, cur: nat, t: Word32, o: nat)
    requires Wf(r) && cur % 2 == 0 && cur <= 128 && IsSlot(o)
    requires Tracks(r, now, cur, t, o)
    ensures IsOldestChoice(r, now, MinimumFrom(r, cur, t, o))
    decreases 128 - cur
  {
    if cur < 128 {
      NextOffset(cur);
      TracksStep(r, now, cur, t, o);
      if t > Cell(r, cur).timeStamp {
        MinimumIsOldest(r, now, cur + 2, Cell(r, cur).timeStamp, cur);
      } else {
        MinimumIsOldest(r, now, cur + 2, t, o);
      }
    }
  }

  /** One pass of the scan loop over a slot that verifies: the buffer takes
      the slot's record and the running minimum moves to the slot exactly
      when its timestamp is below the minimum. */
  lemma ScanFromValidStep(rtcData: MoistureData, r: Region, cur: nat, t: Word32, o: nat) returns (t': Word32, o': nat)
    requires Wf(r) && IsSlot(cur) && cur <= 126 && IsSlot(o)
    requires Accessible(r, cur) && IsValid(Cell(r, cur))
    ensures t > Cell(r, cur).timeStamp ==> t' == Cell(r, cur).timeStamp && o' == cur
    ensures !(t > Cell(r, cur).timeStamp) ==> t' == t && o' == o
    ensures IsSlot(o') && (cur + 2) % 2 == 0
    ensures ScanFrom(rtcData, r, cur, t, o) == ScanFrom(Cell(r, cur), r, cur + 2, t', o')
  {
    NextOffset(cur);
    var c := Cell(r, cur);
    if t > c.timeStamp {
      t', o' := c.timeStamp, cur;
    } else {
      t', o' := t, o;
    }
  }

  /** The running minimum after one more slot. */
  lemma TracksStep(r: Region, now: Word32, cur: nat, t: Word32, o: nat)
    requires Wf(r) && IsSlot(cur) && IsSlot(o)
    requires Tracks(r, now, cur, t, o)
    ensures t > Cell(r, cur).timeStamp ==> Tracks(r, now, cur + 2, Cell(r, cur).timeStamp, cur)
    ensures !(t > Cell(r, cur).timeStamp) ==> Tracks(r, now, cur + 2, t, o)
  {
    if t > Cell(r, cur).timeStamp {
      TracksNewMinimum(r, now, cur, t, o);
    } else {
      TracksKeepsMinimum(r, now, cur, t, o);
    }
  }

  /** A slot older than the running minimum becomes the new minimum. */
  lemma TracksNewMinimum(r: Region, now: Word32, cur: nat, t: Word32, o: nat)
    requires Wf(r) && IsSlot(cur) && IsSlot(o)
    requires Tracks(r, now, cur, t, o) && t > Cell(r, cur).timeStamp
    ensures Tracks(r, now, cur + 2, Cell(r, cur).timeStamp, cur)
  {
    var c := Cell(r, cur).timeStamp;
    assert c < now by {
      if !NoneOlderBelow(r, now, cur) {
        assert t == Cell(r, o).timeStamp < now;
      }
    }
    assert !NoneOlderBelow(r, now, cur + 2);
    forall p | IsSlot(p) && p < cur + 2
      ensures c <= Cell(r, p).timeStamp
    {
      if p < cur {
        if NoneOlderBelow(r, now, cur) {
          assert now <= Cell(r, p).timeStamp;
        } else {
          assert t <= Cell(r, p).timeStamp;
        }
      }
    }
    forall p | IsSlot(p) && p < cur
      ensures c < Cell(r, p).timeStamp
    {
      if NoneOlderBelow(r, now, cur) {
        assert now <= Cell(r, p).timeStamp;
      } else {
        assert t <= Cell(r, p).timeStamp;
      }
    }
  }

  /** A slot no older than the running minimum leaves it in place. */
  lemma TracksKeepsMinimum(r: Region, now: Word32, cur: nat, t: Word32, o: nat)
    requires Wf(r) && IsSlot(cur) && IsSlot(o)
    requires Tracks(r, now, cur, t, o) && !(t > Cell(r, cur).timeStamp)
    ensures Tracks(r, now, cur + 2, t, o)
  {
    if NoneOlderBelow(r, now, cur) {
      forall p | IsSlot(p) && p < cur + 2
        ensures now <= Cell(r, p).timeStamp
      {
        if p >= cur {
          assert p == cur;
        }
      }
    } else {
      assert !NoneOlderBelow(r, now, cur + 2);
      forall p | IsSlot(p) && p < cur + 2
        ensures t <= Cell(r, p).timeStamp
      {
        if p >= cur {
          assert p == cur;
        }
      }
    }
  }

  /** In a healthy region the selector returns the first slot, in scan
      order, whose recomputed checksum differs from the stored one. */
  lemma FindOldestOffsetFreeSlot(rtcData: MoistureData, r: Region, now: Word32, o: int)
    requires Wf(r) && Healthy(r) && IsFirstInvalid(r, o)
    ensures FindOldestOffset(rtcData, r, now).offset == o
  {
    PassesFromPrefix(r, 0, o);
    ScanFromStopsAtFirstInvalid(rtcData, r, 0, now, 0, o);
  }

  /** In a healthy region whose slots all verify, the selector returns the
      slot with the smallest timestamp below `now`, the lowest such on a
      tie, and 0 when no timestamp is below `now`. */
  lemma FindOldestOffsetOldest(rtcData: MoistureData, r: Region, now: Word32)
    requires Wf(r) && Healthy(r) && AllValid(r)
    ensures IsOldestChoice(r, now, FindOldestOffset(rtcData, r, now).offset)
  {
    PassesFromPrefix(r, 0, 128);
    ScanFromIsMinimum(rtcData, r, 0, now, 0);
    MinimumIsOldest(r, now, 0, now, 0);
  }

  /** In a healthy region, the selector's choice is a slot that fails
      verification exactly when some slot does. */
  lemma FindOldestOffsetPrefersFree(rtcData: MoistureData, r: Region, now: Word32)
    requires Wf(r) && Healthy(r)
    ensures !IsValid(Cell(r, FindOldestOffset(rtcData, r, now).offset)) <==> !AllValid(r)
  {
    var s := FindOldestOffset(rtcData, r, now).offset;
    if !AllValid(r) {
      var q := FirstInvalidExists(r, 128);
      FindOldestOffsetFreeSlot(rtcData, r, now, q);
    }
  }

  /** If some slot below `n` fails verification, there is a first one. */
  lemma {:induction false} FirstInvalidExists(r: Region, n: int) returns (q: int)
    requires Wf(r) && !AllValidBelow(r, n)
    ensures IsFirstInvalid(r, q) && q < n
    decreases n
  {
    var p :| IsSlot(p) && p < n && !IsValid(Cell(r, p));
    if AllValidBelow(r, p) {
      q := p;
    } else {
      q := FirstInvalidExists(r, p);
    }
  }

  /** The reuse of the buffer shows when a read fails: `getRTCData` then
      returns 0, which is compared with the `crc8` left in the buffer by the
      previous read. After a readable, verifying slot whose checksum is not
      0, a slot that cannot be read is taken as free. */
  lemma ScanFromTakesUnreadableSlot(rtcData: MoistureData, r: Region, cur: nat, t: Word32, o: nat)
    requires Wf(r) && IsSlot(cur) && IsSlot(cur + 2) && IsSlot(o)
    requires Accessible(r, cur) && IsValid(Cell(r, cur)) && Cell(r, cur).crc8 != 0
    requires !Accessible(r, cur + 2)
    ensures ScanFrom(rtcData, r, cur, t, o) == Selection(cur + 2, Cell(r, cur))
  {
    var t', o' := ScanFromValidStep(rtcData, r, cur, t, o);
  }

  /** At start-up the buffer is all zero, so a slot 0 that cannot be read
      passes as a valid record with timestamp 0: it becomes the running
      minimum whenever the clock reads past 0. */
  lemma UnreadableFirstSlotAtBoot(r: Region, now: Word32)
    requires Wf(r) && !Accessible(r, 0) && now > 0
    ensures FindOldestOffset(Blank, r, now) == ScanFrom(Blank, r, 2, 0, 0)
  {
  }

  /** A running minimum of timestamp 0 is never undercut. */
  lemma {:induction false} MinimumFromZero(r: Region, cur: nat, o: nat)
    requires Wf(r) && cur % 2 == 0 && cur <= 128 && IsSlot(o)
    ensures MinimumFrom(r, cur, 0, o) == o
    decreases 128 - cur
  {
    if cur < 128 {
      NextOffset(cur);
      MinimumFromZero(r, cur + 2, o);
    }
  }

  /** Consequence at start-up: when slot 0 cannot be read and every other
      slot reads and verifies, the selector chooses slot 0, where the
      start-up write then fails. */
  lemma BootChoosesUnreadableFirstSlot(r: Region, now: Word32)
    requires Wf(r) && !Accessible(r, 0) && now > 0
    requires forall p :: IsSlot(p) && p != 0 ==> Accessible(r, p) && IsValid(Cell(r, p))
    ensures FindOldestOffset(Blank, r, now).offset == 0
  {
    UnreadableFirstSlotAtBoot(r, now);
    PassesFromRest(r, 2);
    ScanFromIsMinimum(Blank, r, 2, 0, 0);
    MinimumFromZero(r, 2, 0);
  }

  /** Slots from `cur` on that all read and verify are passed slot by slot. */
  lemma {:induction false} PassesFromRest(r: Region, cur: nat)
    requires Wf(r) && cur % 2 == 0 && cur >= 2
    requires forall p :: IsSlot(p) && p != 0 ==> Accessible(r, p) && IsValid(Cell(r, p))
    ensures PassesFrom(r, cur, 128)
    decreases 128 - cur
  {
    if cur < 128 {
      assert IsSlot(cur) && Accessible(r, cur) && IsValid(Cell(r, cur));
      NextOffset(cur);
      PassesFromRest(r, cur + 2);
    }
  }
}
