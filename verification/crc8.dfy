/**
 The 8-bit checksum that guards every record of the log: CRC-8/SMBUS, the
 Packet Error Code of the System Management Bus specification. Its parameters
 are: width 8, polynomial x^8 + x^2 + x + 1 (0x07), initial value 0x00, no
 reflection of input or output, no final XOR. The catalogue check value (the
 CRC of the ASCII bytes "123456789") is 0xF4.

 The checksum is defined bit by bit, the way the standard describes it, and
 related to the 256-entry lookup table that table-driven implementations use.
 */
module Crc8 {

  const Polynomial: bv8 := 0x07

  /** One step of the shift register: shift left, folding the polynomial in
      when the bit shifted out was set. */
  function ShiftStep(c: bv8): bv8
  {
    if c & 0x80 != 0 then (c << 1) ^ Polynomial else c << 1
  }

  /** The register after `n` steps. */
  function ShiftBits(c: bv8, n: nat): bv8
    decreases n
  {
    if n == 0 then c else ShiftBits(ShiftStep(c), n - 1)
  }

  /** Feeds one input byte into the running remainder `crc`: the byte is
      XORed into the register, which is then shifted eight times. */
  function UpdateByte(crc: bv8, b: bv8): bv8
  {
    ShiftBits(crc ^ b, 8)
  }

  /** The remainder after feeding `data`, first byte first, into a register holding `crc`. */
  function SmbusFrom(crc: bv8, data: seq<bv8>): bv8
    decreases |data|
  {
    if |data| == 0 then crc else SmbusFrom(UpdateByte(crc, data[0]), data[1..])
  }

  /** CRC-8/SMBUS of a byte string. */
  function Smbus(data: seq<bv8>): bv8
  {
    SmbusFrom(0x00, data)
  }

  /** The entry of the lookup table used by table-driven CRC-8/SMBUS code:
      the remainder of one byte `i` fed into an empty register. */
  function TableEntry(i: bv8): bv8
  {
    UpdateByte(0x00, i)
  }

  /** The table-driven formulation: each byte indexes the table with
      `crc ^ byte`, and the entry becomes the new register. */
  function TableSmbusFrom(crc: bv8, data: seq<bv8>): bv8
    decreases |data|
  {
    if |data| == 0 then crc else TableSmbusFrom(TableEntry(crc ^ data[0]), data[1..])
  }

  // ---------------------------------------------------------------------
  // Properties
  // ---------------------------------------------------------------------

  /** The register only ever sees `crc ^ byte`, so a byte can be moved into
      the register before it is fed: this is what makes a 256-entry table enough. */
  lemma UpdateByteAbsorbs(crc: bv8, b: bv8)
    ensures UpdateByte(crc, b) == UpdateByte(0x00, crc ^ b)
  {
  }

  /** Eight steps of the register written out. */
  lemma UpdateByteUnfolded(crc: bv8, b: bv8)
    ensures var x := crc ^ b;
      UpdateByte(crc, b) == ShiftStep(ShiftStep(ShiftStep(ShiftStep(ShiftStep(ShiftStep(ShiftStep(ShiftStep(x))))))))
  {
    var x := crc ^ b;
    assert ShiftBits(x, 8) == ShiftBits(ShiftStep(x), 7);
    var y := ShiftStep(x);
    assert ShiftBits(y, 7) == ShiftBits(ShiftStep(y), 6);
    y := ShiftStep(y);
    assert ShiftBits(y, 6) == ShiftBits(ShiftStep(y), 5);
    y := ShiftStep(y);
    assert ShiftBits(y, 5) == ShiftBits(ShiftStep(y), 4);
    y := ShiftStep(y);
    assert ShiftBits(y, 4) == ShiftBits(ShiftStep(y), 3);
    y := ShiftStep(y);
    assert ShiftBits(y, 3) == ShiftBits(ShiftStep(y), 2);
    y := ShiftStep(y);
    assert ShiftBits(y, 2) == ShiftBits(ShiftStep(y), 1);
    y := ShiftStep(y);
    assert ShiftBits(y, 1) == ShiftBits(ShiftStep(y), 0);
  }

  /** One step of the register loses nothing: if the top bits agree the
      shifted values differ, and if they differ the polynomial's low bits
      tell the results apart. */
  lemma ShiftStepInjective(x: bv8, y: bv8)
    ensures ShiftStep(x) == ShiftStep(y) <==> x == y
  {
  }

  /** Any number of steps loses nothing either. */
  lemma {:induction false} ShiftBitsInjective(x: bv8, y: bv8, n: nat)
    ensures ShiftBits(x, n) == ShiftBits(y, n) <==> x == y
    decreases n
  {
    if n > 0 {
      ShiftStepInjective(x, y);
      ShiftBitsInjective(ShiftStep(x), ShiftStep(y), n - 1);
    }
  }

  /** Feeding one byte into an empty register is a bijection on bytes: the
      polynomial has a constant term, so multiplying by x^8 modulo it loses
      nothing, and the 256 table entries are distinct. */
  lemma TableInjective(x: bv8, y: bv8)
    ensures TableEntry(x) == TableEntry(y) <==> x == y
  {
    assert TableEntry(x) == ShiftBits(x, 8) && TableEntry(y) == ShiftBits(y, 8) by {
      assert 0x00 ^ x == x && 0x00 ^ y == y;
    }
    ShiftBitsInjective(x, y, 8);
  }

  /** Feeding a byte separates registers and separates bytes: two feeds
      agree exactly when `crc ^ byte` agrees. */
  lemma UpdateByteInjective(c1: bv8, b1: bv8, c2: bv8, b2: bv8)
    ensures UpdateByte(c1, b1) == UpdateByte(c2, b2) <==> c1 ^ b1 == c2 ^ b2
  {
    UpdateByteAbsorbs(c1, b1);
    UpdateByteAbsorbs(c2, b2);
    TableInjective(c1 ^ b1, c2 ^ b2);
  }

  /** The table-driven computation agrees with the bitwise one on every input. */
  lemma {:induction false} TableAgrees(crc: bv8, data: seq<bv8>)
    ensures TableSmbusFrom(crc, data) == SmbusFrom(crc, data)
    decreases |data|
  {
    if |data| > 0 {
      UpdateByteAbsorbs(crc, data[0]);
      TableAgrees(TableEntry(crc ^ data[0]), data[1..]);
    }
  }

  /** Entries of the published CRC-8 (polynomial 0x07) lookup table. */
  lemma TablePublishedEntries()
    ensures TableEntry(0x01) == 0x07 && TableEntry(0x02) == 0x0E
    ensures TableEntry(0x10) == 0x70 && TableEntry(0x80) == 0x89
    ensures TableEntry(0xFF) == 0xF3
  {
    UpdateByteUnfolded(0x00, 0x01);
    UpdateByteUnfolded(0x00, 0x02);
    UpdateByteUnfolded(0x00, 0x10);
    UpdateByteUnfolded(0x00, 0x80);
    UpdateByteUnfolded(0x00, 0xFF);
  }

  lemma XorCancels(c1: bv8, c2: bv8, b: bv8)
    ensures c1 ^ b == c2 ^ b <==> c1 == c2
  {
  }

  /** Two different registers stay different whatever bytes follow. */
  lemma {:induction false} SmbusFromSeparates(c1: bv8, c2: bv8, data: seq<bv8>)
    requires c1 != c2
    ensures SmbusFrom(c1, data) != SmbusFrom(c2, data)
    decreases |data|
  {
    if |data| > 0 {
      var b := data[0];
      XorCancels(c1, c2, b);
      UpdateByteInjective(c1, b, c2, b);
      SmbusFromSeparates(UpdateByte(c1, b), UpdateByte(c2, b), data[1..]);
    }
  }

  /** Changing any one byte of the input changes the checksum: every error
      confined to a single byte, and so every single-bit error, is detected. */
  lemma {:induction false} SmbusFromDetectsByteChange(crc: bv8, data: seq<bv8>, j: nat, v: bv8)
    requires j < |data|
    requires v != data[j]
    ensures SmbusFrom(crc, data[j := v]) != SmbusFrom(crc, data)
    decreases j
  {
    var changed := data[j := v];
    if j == 0 {
      assert changed[1..] == data[1..];
      UpdateByteInjective(crc, v, crc, data[0]);
      assert crc ^ v != crc ^ data[0];
      SmbusFromSeparates(UpdateByte(crc, v), UpdateByte(crc, data[0]), data[1..]);
    } else {
      assert changed[0] == data[0];
      assert changed[1..] == data[1..][j - 1 := v];
      SmbusFromDetectsByteChange(UpdateByte(crc, data[0]), data[1..], j - 1, v);
    }
  }

  /** A register fed one byte and then the rest. */
  lemma SmbusFromStep(crc: bv8, b: bv8, rest: seq<bv8>)
    ensures SmbusFrom(crc, [b] + rest) == SmbusFrom(UpdateByte(crc, b), rest)
  {
    assert ([b] + rest)[1..] == rest;
  }

  /** The catalogue check value of CRC-8/SMBUS. */
  lemma CheckValue()
    ensures Smbus([0x31, 0x32, 0x33, 0x34, 0x35, 0x36, 0x37, 0x38, 0x39]) == 0xF4
  {
    UpdateByteUnfolded(0x00, 0x31);
    SmbusFromStep(0x00, 0x31, [0x32, 0x33, 0x34, 0x35, 0x36, 0x37, 0x38, 0x39]);
    UpdateByteUnfolded(0x97, 0x32);
    SmbusFromStep(0x97, 0x32, [0x33, 0x34, 0x35, 0x36, 0x37, 0x38, 0x39]);
    UpdateByteUnfolded(0x72, 0x33);
    SmbusFromStep(0x72, 0x33, [0x34, 0x35, 0x36, 0x37, 0x38, 0x39]);
    UpdateByteUnfolded(0xC0, 0x34);
    SmbusFromStep(0xC0, 0x34, [0x35, 0x36, 0x37, 0x38, 0x39]);
    UpdateByteUnfolded(0xC2, 0x35);
    SmbusFromStep(0xC2, 0x35, [0x36, 0x37, 0x38, 0x39]);
    UpdateByteUnfolded(0xCB, 0x36);
    SmbusFromStep(0xCB, 0x36, [0x37, 0x38, 0x39]);
    UpdateByteUnfolded(0xFD, 0x37);
    SmbusFromStep(0xFD, 0x37, [0x38, 0x39]);
    UpdateByteUnfolded(0x78, 0x38);
    SmbusFromStep(0x78, 0x38, [0x39]);
    UpdateByteUnfolded(0xC7, 0x39);
    SmbusFromStep(0xC7, 0x39, []);
  }

  /** With a zero initial value, a run of zero bytes has checksum zero. */
  lemma CheckZeros()
    ensures Smbus([0, 0, 0, 0]) == 0
  {
    UpdateByteUnfolded(0, 0);
    var data: seq<bv8> := [0, 0, 0, 0];
    assert data[1..] == [0, 0, 0];
    assert data[1..][1..] == [0, 0];
    assert data[1..][1..][1..] == [0];
  }
}
