/**
 The retained RTC user memory that holds the log, seen through
 `ESP.rtcUserMemoryRead` / `ESP.rtcUserMemoryWrite`.

 Offsets are counted in 4-byte blocks. The firmware treats a record as two
 blocks, so its slots sit at the even offsets 0, 2, ..., 126: 64 slots in
 all. Each slot is modelled as an independent cell holding one record; the
 byte layout of the structure (and whether neighbouring slots overlap once
 padding is taken into account) is not modelled.

 An access fails, as the SDK call reports by returning false, at an offset
 past the last slot (the user memory is 512 bytes, 128 blocks), at an offset
 the medium reports as faulty (`faulty`), and at an odd offset, which the
 firmware never uses and which would straddle two slots.
 */
module Region {
  import opened Record

  /** Number of record slots. The slots sit 2 blocks apart (the stride), and
      128 is the first offset past them, where the firmware's scans stop.
      These two are written as literals below, which keeps the arithmetic
      on offsets linear for the verifier. */
  const SlotCount: nat := 64

  datatype Option<T> = None | Some(value: T)

  datatype Region = Region(cells: seq<MoistureData>, faulty: set<nat>)

  predicate Wf(r: Region)
  {
    |r.cells| == SlotCount
  }

  /** The offsets that address a slot. */
  predicate IsSlot(o: int)
  {
    0 <= o < 128 && o % 2 == 0
  }

  /** The record held in the slot at offset `o`. */
  function Cell(r: Region, o: int): MoistureData
    requires Wf(r) && IsSlot(o)
  {
    r.cells[o / 2]
  }

  /** The medium serves a read or write at `o`. */
  predicate Accessible(r: Region, o: int)
  {
    IsSlot(o) && o !in r.faulty
  }

  /** No slot is faulty: every access within the region succeeds. */
  ghost predicate Healthy(r: Region)
  {
    forall o :: IsSlot(o) ==> Accessible(r, o)
  }

  /** `ESP.rtcUserMemoryRead`: the record at `o`, or nothing on a medium fault.
      Whether the record verifies is not the accessor's concern. */
  function Read(r: Region, o: int): (res: Option<MoistureData>)
    requires Wf(r)
    ensures res.Some? <==> Accessible(r, o)
    ensures res.Some? ==> res.value == Cell(r, o)
  {
    if Accessible(r, o) then Some(r.cells[o / 2]) else None
  }

  /** `ESP.rtcUserMemoryWrite`: the region with `rec` stored at `o`, or
      nothing on a medium fault (the region is then left as it was). */
  function Write(r: Region, o: int, rec: MoistureData): (res: Option<Region>)
    requires Wf(r)
    ensures res.Some? <==> Accessible(r, o)
    ensures res.Some? ==> Wf(res.value) && res.value.faulty == r.faulty
  {
    if Accessible(r, o) then Some(r.(cells := r.cells[o / 2 := rec])) else None
  }

  // ---------------------------------------------------------------------
  // Properties
  // ---------------------------------------------------------------------

  /** Distinct slot offsets address distinct cells. */
  lemma SlotsDistinct(o: int, p: int)
    requires IsSlot(o) && IsSlot(p) && o != p
    ensures o / 2 != p / 2
  {
  }

  /** Slot number `j` sits at offset 2 * j. */
  lemma SlotOfIndex(j: int)
    requires 0 <= j < 64
    ensures IsSlot(2 * j) && (2 * j) / 2 == j
  {
  }

  /** The offset after a slot: even again, and at most the end of the region. */
  lemma NextOffset(o: int)
    requires IsSlot(o)
    ensures (o + 2) % 2 == 0 && o + 2 <= 128
  {
  }

  /** Two even offsets in increasing order are at least one stride apart. */
  lemma EvenGap(a: int, b: int)
    requires a % 2 == 0 && b % 2 == 0 && a < b
    ensures a + 2 <= b
  {
  }

  /** After a successful write, reading the same offset gives the record
      written, and every other offset reads exactly as before. */
  lemma ReadAfterWrite(r: Region, o: int, rec: MoistureData, p: int)
    requires Wf(r) && Write(r, o, rec).Some?
    ensures Read(Write(r, o, rec).value, o) == Some(rec)
    ensures p != o ==> Read(Write(r, o, rec).value, p) == Read(r, p)
  {
    if p != o && IsSlot(p) {
      SlotsDistinct(o, p);
    }
  }

  /** Reads and writes fail at exactly the same offsets. */
  lemma WriteFailsIffReadFails(r: Region, o: int, rec: MoistureData)
    requires Wf(r)
    ensures Write(r, o, rec).None? <==> Read(r, o).None?
  {
  }

  /** In a healthy region every slot can be read and written, and nothing
      past the last slot can: in particular offset 128 is out of range. */
  lemma HealthyAccess(r: Region, o: int)
    requires Wf(r) && Healthy(r)
    ensures Read(r, o).Some? <==> IsSlot(o)
    ensures Read(r, 128).None?
  {
  }
}
