/** The 32-bit big-endian words of the Huoshan frame format (src/HuoshanEngine.hpp:146-162). */
module Words {
  import opened Common

  function ToBytesB(d: bv32): (s: Bytes)
    ensures |s| == 4
  {
    [((d >> 24) & 0xFF) as bv8, ((d >> 16) & 0xFF) as bv8, ((d >> 8) & 0xFF) as bv8, (d & 0xFF) as bv8]
  }

  /** A `char` promoted to `int`, which depends on whether plain `char` is signed. */
  function Promote(signed: bool, c: bv8): bv32 {
    if signed && c >= 0x80 then 0xFFFF_FF00 | (c as bv32) else c as bv32
  }

  /** `from_byteb` on the four characters it reads. */
  function FromByteB(signed: bool, b0: bv8, b1: bv8, b2: bv8, b3: bv8): bv32 {
    (Promote(signed, b0) << 24) | (Promote(signed, b1) << 16) | (Promote(signed, b2) << 8) | Promote(signed, b3)
  }

  lemma WordRoundTrip(d: bv32)
    ensures var s := ToBytesB(d); FromByteB(false, s[0], s[1], s[2], s[3]) == d
  {
  }

  lemma BytesRoundTrip(b0: bv8, b1: bv8, b2: bv8, b3: bv8)
    ensures ToBytesB(FromByteB(false, b0, b1, b2, b3)) == [b0, b1, b2, b3]
  {
  }

  /** Every one of the low three bytes that is 0x80 or more has nothing but 0xFF above it. */
  predicate SignSafe(b0: bv8, b1: bv8, b2: bv8, b3: bv8) {
    && (b3 >= 0x80 ==> b2 == 0xFF && b1 == 0xFF && b0 == 0xFF)
    && (b2 >= 0x80 ==> b1 == 0xFF && b0 == 0xFF)
    && (b1 >= 0x80 ==> b0 == 0xFF)
  }

  lemma AgreesAbove3(b3: bv8)
    requires b3 >= 0x80
    ensures FromByteB(true, 0xFF, 0xFF, 0xFF, b3) == FromByteB(false, 0xFF, 0xFF, 0xFF, b3)
  {
  }

  lemma AgreesAbove2(b2: bv8, b3: bv8)
    requires b3 < 0x80 <= b2
    ensures FromByteB(true, 0xFF, 0xFF, b2, b3) == FromByteB(false, 0xFF, 0xFF, b2, b3)
  {
  }

  lemma AgreesAbove1(b1: bv8, b2: bv8, b3: bv8)
    requires b3 < 0x80 && b2 < 0x80 <= b1
    ensures FromByteB(true, 0xFF, b1, b2, b3) == FromByteB(false, 0xFF, b1, b2, b3)
  {
  }

  lemma AgreesBelow(b0: bv8, b1: bv8, b2: bv8, b3: bv8)
    requires b3 < 0x80 && b2 < 0x80 && b1 < 0x80
    ensures FromByteB(true, b0, b1, b2, b3) == FromByteB(false, b0, b1, b2, b3)
  {
  }

  lemma SignedAgrees(b0: bv8, b1: bv8, b2: bv8, b3: bv8)
    requires SignSafe(b0, b1, b2, b3)
    ensures FromByteB(true, b0, b1, b2, b3) == FromByteB(false, b0, b1, b2, b3)
  {
    if b3 >= 0x80 {
      AgreesAbove3(b3);
    } else if b2 >= 0x80 {
      AgreesAbove2(b2, b3);
    } else if b1 >= 0x80 {
      AgreesAbove1(b1, b2, b3);
    } else {
      AgreesBelow(b0, b1, b2, b3);
    }
  }

  lemma SignedDiffers(b0: bv8, b1: bv8, b2: bv8, b3: bv8)
    requires !SignSafe(b0, b1, b2, b3)
    ensures FromByteB(true, b0, b1, b2, b3) != FromByteB(false, b0, b1, b2, b3)
  {
  }

  /** Where plain `char` is signed, the sign bits of the low bytes spill into the high ones. */
  lemma SignedWordRoundTrip(d: bv32)
    ensures var s := ToBytesB(d);
            FromByteB(true, s[0], s[1], s[2], s[3]) == d <==> SignSafe(s[0], s[1], s[2], s[3])
  {
    var s := ToBytesB(d);
    WordRoundTrip(d);
    if SignSafe(s[0], s[1], s[2], s[3]) {
      SignedAgrees(s[0], s[1], s[2], s[3]);
    } else {
      SignedDiffers(s[0], s[1], s[2], s[3]);
    }
  }

  // ---------------------------------------------------------------------------------------------------------------
  // Lengths

  /** `size_t` converted to `uint32_t`. */
  function Uint32(n: nat): bv32 {
    (n % 0x1_0000_0000) as bv32
  }

  // Every number below 2^32 is a word, put together from halves of halves.

  lemma Join4(a: bv4, b: bv4)
    ensures (((a as bv8) << 4) | (b as bv8)) as int == (a as int) * 0x10 + (b as int)
  {
  }

  lemma Join8(a: bv8, b: bv8)
    ensures (((a as bv16) << 8) | (b as bv16)) as int == (a as int) * 0x100 + (b as int)
  {
  }

  lemma Join16(a: bv16, b: bv16)
    ensures (((a as bv32) << 16) | (b as bv32)) as int == (a as int) * 0x1_0000 + (b as int)
  {
  }

  lemma NibbleFor(n: nat) returns (m: bv4)
    requires n < 16
    ensures m as int == n
  {
    m := [0, 1, 2, 3, 4, 5, 6, 7, 8, 9, 10, 11, 12, 13, 14, 15][n];
  }

  lemma ByteFor(n: nat) returns (m: bv8)
    requires n < 0x100
    ensures m as int == n
  {
    var hi := NibbleFor(n / 16);
    var lo := NibbleFor(n % 16);
    Join4(hi, lo);
    m := ((hi as bv8) << 4) | (lo as bv8);
  }

  lemma ByteIntRoundTrip(b: bv8)
    ensures 0 <= b as int < 0x100 && (b as int) as bv8 == b
  {
  }

  lemma ByteRoundTrip(n: nat)
    requires n < 0x100
    ensures (n as bv8) as int == n
  {
    var m := ByteFor(n);
    ByteIntRoundTrip(m);
  }

  lemma HalfFor(n: nat) returns (m: bv16)
    requires n < 0x1_0000
    ensures m as int == n
  {
    var hi := ByteFor(n / 0x100);
    var lo := ByteFor(n % 0x100);
    Join8(hi, lo);
    m := ((hi as bv16) << 8) | (lo as bv16);
  }

  lemma WordFor(n: nat) returns (m: bv32)
    requires n < 0x1_0000_0000
    ensures m as int == n
  {
    var hi := HalfFor(n / 0x1_0000);
    var lo := HalfFor(n % 0x1_0000);
    Join16(hi, lo);
    m := ((hi as bv32) << 16) | (lo as bv32);
  }

  lemma IntRoundTrip(d: bv32)
    ensures 0 <= d as int < 0x1_0000_0000 && (d as int) as bv32 == d
  {
  }

  lemma WordIsItsLength(d: bv32)
    ensures Uint32(d as int) == d
  {
    IntRoundTrip(d);
  }

  lemma LengthRoundTrip(n: nat)
    requires n < 0x1_0000_0000
    ensures Uint32(n) as int == n
  {
    var m := WordFor(n);
    IntRoundTrip(m);
  }
}
