/**
 Unsigned 32-bit words and their in-memory image. The firmware's timestamps
 are `unsigned long`, 32 bits wide on the ESP8266, and the checksum is taken
 over the bytes of the timestamp as they lie in memory: the ESP8266 is
 little-endian, so least significant byte first.
 */
module Bytes {

  /** The values of a 32-bit unsigned integer. */
  type Word32 = x: int | 0 <= x < 0x1_0000_0000

  /** 256 to the power `n`. */
  function Pow256(n: nat): (p: nat)
    ensures p > 0
  {
    if n == 0 then 1 else 0x100 * Pow256(n - 1)
  }

  /** The byte whose value is `a`, built one bit at a time from the top. */
  function ToByte(a: nat): bv8
    requires a < 0x100
    decreases a
  {
    if a == 0 then 0 else (ToByte(a / 2) << 1) | (if a % 2 == 0 then 0 else 1)
  }

  /** The lowest `n` base-256 digits of `x`, least significant first. */
  function LeDigits(x: nat, n: nat): (r: seq<bv8>)
    ensures |r| == n
    decreases n
  {
    if n == 0 then [] else [ToByte(x % 0x100)] + LeDigits(x / 0x100, n - 1)
  }

  /** The number whose base-256 digits, least significant first, are `b`. */
  function FromLeDigits(b: seq<bv8>): (x: nat)
    ensures x < Pow256(|b|)
    decreases |b|
  {
    if |b| == 0 then 0 else b[0] as int + 0x100 * FromLeDigits(b[1..])
  }

  /** The four bytes of a word as a little-endian machine stores them. */
  function LeBytes(x: Word32): (r: seq<bv8>)
    ensures |r| == 4
  {
    LeDigits(x, 4)
  }

  /** The word stored in four bytes of a little-endian machine. */
  function FromLeBytes(b: seq<bv8>): Word32
    requires |b| == 4
  {
    assert Pow256(4) == 0x1_0000_0000;
    FromLeDigits(b)
  }

  // ---------------------------------------------------------------------
  // Properties
  // ---------------------------------------------------------------------

  lemma DivModByte(a: int, q: int)
    requires 0 <= a < 0x100
    ensures (a + 0x100 * q) % 0x100 == a && (a + 0x100 * q) / 0x100 == q
  {
  }

  lemma DivBelow(x: nat, p: nat)
    requires x < 0x100 * p
    ensures x / 0x100 < p
  {
  }

  /** A bit shifted in at the low end of a byte whose top bit is clear. */
  lemma ShiftIn(x: bv8, bit: bv8)
    requires x as int < 0x80 && bit as int < 2
    ensures ((x << 1) | bit) as int == 2 * (x as int) + bit as int
  {
  }

  /** `ToByte` gives the byte with the requested value. */
  lemma {:induction false} ToByteValue(a: nat)
    requires a < 0x100
    ensures ToByte(a) as int == a
    decreases a
  {
    if a > 0 {
      var h := a / 2;
      ToByteValue(h);
      var bit: bv8 := if a % 2 == 0 then 0 else 1;
      assert bit as int == a - 2 * h;
      ShiftIn(ToByte(h), bit);
    }
  }

  lemma ByteValueInjective(x: bv8, y: bv8)
    requires x as int == y as int
    ensures x == y
  {
  }

  /** Every byte is `ToByte` of its value. */
  lemma ByteRoundTrip(b: bv8)
    ensures ToByte(b as int) == b
  {
    ToByteValue(b as int);
    ByteValueInjective(ToByte(b as int), b);
  }

  /** Reading back digits written out gives the digits. */
  lemma {:induction false} DigitsRoundTrip(b: seq<bv8>)
    ensures LeDigits(FromLeDigits(b), |b|) == b
    decreases |b|
  {
    if |b| > 0 {
      DivModByte(b[0] as int, FromLeDigits(b[1..]));
      ByteRoundTrip(b[0]);
      DigitsRoundTrip(b[1..]);
      assert b == [b[0]] + b[1..];
    }
  }

  /** Writing out the digits of a number that fits loses nothing. */
  lemma {:induction false} NumberRoundTrip(x: nat, n: nat)
    requires x < Pow256(n)
    ensures FromLeDigits(LeDigits(x, n)) == x
    decreases n
  {
    if n > 0 {
      DivBelow(x, Pow256(n - 1));
      NumberRoundTrip(x / 0x100, n - 1);
      var d := LeDigits(x, n);
      assert d[1..] == LeDigits(x / 0x100, n - 1);
      ToByteValue(x % 0x100);
    }
  }

  /** The in-memory image of a word determines the word, and every four
      bytes are the image of exactly the word they encode. */
  lemma LeBytesRoundTrip(x: Word32, b: seq<bv8>)
    requires |b| == 4
    ensures FromLeBytes(LeBytes(x)) == x
    ensures LeBytes(FromLeBytes(b)) == b
  {
    assert Pow256(4) == 0x1_0000_0000;
    NumberRoundTrip(x, 4);
    DigitsRoundTrip(b);
  }
}
