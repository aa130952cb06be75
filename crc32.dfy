/**
 * CRC-32 as `java.util.zip.CRC32` computes it: the IEEE 802.3 frame check
 * polynomial in its reflected form 0xEDB88320, register preset to all ones,
 * result complemented.  `getValue()` is the unsigned 32-bit result.
 *
 * The checksum object of the block writer and reader is modelled by its
 * register: `update` feeds bytes in, `getValue` reads the complement.
 */
module Crc32 {
  import opened ByteUtils

  const POLYNOMIAL: bv32 := 0xEDB8_8320
  const INITIAL: bv32 := 0xFFFF_FFFF

  /** One bit of the reflected shift register. */
  function ShiftBit(c: bv32): bv32
  {
    if c & 1 == 1 then (c >> 1) ^ POLYNOMIAL else c >> 1
  }

  /** Feeds one byte, lowest bit first: eight shifts of the register. */
  function UpdateByte(c: bv32, b: Byte): bv32
  {
    var x := c ^ (b as bv32);
    ShiftBit(ShiftBit(ShiftBit(ShiftBit(ShiftBit(ShiftBit(ShiftBit(ShiftBit(x))))))))
  }

  /** The register after feeding `s` into a register holding `c`. */
  function Update(c: bv32, s: seq<Byte>): bv32
  {
    if s == [] then c else UpdateByte(Update(c, s[..|s| - 1]), s[|s| - 1])
  }

  /** `getValue()` of a checksum whose register is `c`. */
  function Value(c: bv32): (r: int)
    ensures 0 <= r < 0x1_0000_0000
  {
    (c ^ 0xFFFF_FFFF) as int
  }

  /** CRC-32 of `s` from a fresh checksum object. */
  function Crc(s: seq<Byte>): int
  {
    Value(Update(INITIAL, s))
  }

  /** Feeding two pieces one after the other is feeding their concatenation. */
  lemma {:induction false} UpdateConcat(c: bv32, a: seq<Byte>, b: seq<Byte>)
    ensures Update(c, a + b) == Update(Update(c, a), b)
    decreases |b|
  {
    if b == [] {
      assert a + b == a;
    } else {
      var n := |b| - 1;
      assert (a + b)[..|a + b| - 1] == a + b[..n];
      UpdateConcat(c, a, b[..n]);
    }
  }

  /** One byte fed in, with the register after each of the eight shifts spelled out. */
  lemma {:induction false} UpdateByteSteps(c: bv32, b: Byte, x0: bv32, x1: bv32, x2: bv32, x3: bv32,
                        x4: bv32, x5: bv32, x6: bv32, x7: bv32, x8: bv32)
    requires x0 == c ^ (b as bv32)
    requires x1 == ShiftBit(x0) && x2 == ShiftBit(x1) && x3 == ShiftBit(x2) && x4 == ShiftBit(x3)
    requires x5 == ShiftBit(x4) && x6 == ShiftBit(x5) && x7 == ShiftBit(x6) && x8 == ShiftBit(x7)
    ensures UpdateByte(c, b) == x8
  {
  }

  /** The register after one more byte. */
  lemma {:induction false} FeedStep(p: seq<Byte>, before: bv32, b: Byte, after: bv32)
    requires Update(INITIAL, p) == before && UpdateByte(before, b) == after
    ensures Update(INITIAL, p + [b]) == after
  {
    assert (p + [b])[..|p|] == p;
  }

  /** The register through the ASCII digits 1 to 9, one digit at a time. */
  lemma {:induction false} FeedDigit1()
    ensures UpdateByte(0xFFFFFFFF, 0x31) == 0x7C231048
  {
    UpdateByteSteps(0xFFFFFFFF, 0x31,
      0xFFFFFFCE, 0x7FFFFFE7, 0xD2477CD3, 0x849B3D49, 0xAFF51D84, 0x57FA8EC2, 0x2BFD4761, 0xF8462090, 0x7C231048);
  }

  lemma {:induction false} FeedDigit2()
    ensures UpdateByte(0x7C231048, 0x32) == 0xB0ACBB32
  {
    UpdateByteSteps(0x7C231048, 0x32,
      0x7C23107A, 0x3E11883D, 0xF2B0473E, 0x7958239F, 0xD11492EF, 0x8532CA57, 0xAF21E60B, 0xBA287025, 0xB0ACBB32);
  }

  lemma {:induction false} FeedDigit3()
    ensures UpdateByte(0xB0ACBB32, 0x33) == 0x77B79C2D
  {
    UpdateByteSteps(0xB0ACBB32, 0x33,
      0xB0ACBB01, 0xB5EEDEA0, 0x5AF76F50, 0x2D7BB7A8, 0x16BDDBD4, 0x0B5EEDEA, 0x05AF76F5, 0xEF6F385A, 0x77B79C2D);
  }

  lemma {:induction false} FeedDigit4()
    ensures UpdateByte(0x77B79C2D, 0x34) == 0x641C1F5C
  {
    UpdateByteSteps(0x77B79C2D, 0x34,
      0x77B79C19, 0xD6634D2C, 0x6B31A696, 0x3598D34B, 0xF774EA85, 0x9602F662, 0x4B017B31, 0xC8383EB8, 0x641C1F5C);
  }

  lemma {:induction false} FeedDigit5()
    ensures UpdateByte(0x641C1F5C, 0x35) == 0x340AC5E3
  {
    UpdateByteSteps(0x641C1F5C, 0x35,
      0x641C1F69, 0xDFB68C94, 0x6FDB464A, 0x37EDA325, 0xF64E52B2, 0x7B272959, 0xD02B178C, 0x68158BC6, 0x340AC5E3);
  }

  lemma {:induction false} FeedDigit6()
    ensures UpdateByte(0x340AC5E3, 0x36) == 0xF68D2C9E
  {
    UpdateByteSteps(0x340AC5E3, 0x36,
      0x340AC5D5, 0xF7BDE1CA, 0x7BDEF0E5, 0xD057FB52, 0x682BFDA9, 0xD9AD7DF4, 0x6CD6BEFA, 0x366B5F7D, 0xF68D2C9E);
  }

  lemma {:induction false} FeedDigit7()
    ensures UpdateByte(0xF68D2C9E, 0x37) == 0xAFFC9660
  {
    UpdateByteSteps(0xF68D2C9E, 0x37,
      0xF68D2CA9, 0x96FE1574, 0x4B7F0ABA, 0x25BF855D, 0xFF67418E, 0x7FB3A0C7, 0xD2615343, 0x84882A81, 0xAFFC9660);
  }

  lemma {:induction false} FeedDigit8()
    ensures UpdateByte(0xAFFC9660, 0x38) == 0x651F2550
  {
    UpdateByteSteps(0xAFFC9660, 0x38,
      0xAFFC9658, 0x57FE4B2C, 0x2BFF2596, 0x15FF92CB, 0xE7474A45, 0x9E1B2602, 0x4F0D9301, 0xCA3E4AA0, 0x651F2550);
  }

  lemma {:induction false} FeedDigit9()
    ensures UpdateByte(0x651F2550, 0x39) == 0x340BC6D9
  {
    UpdateByteSteps(0x651F2550, 0x39,
      0x651F2569, 0xDF371194, 0x6F9B88CA, 0x37CDC465, 0xF65E6112, 0x7B2F3089, 0xD02F1B64, 0x68178DB2, 0x340BC6D9);
  }

  /** The register after each prefix of the ASCII digits "123456789". */
  lemma {:induction false} Prefix1()
    ensures Update(INITIAL, [0x31]) == 0x7C231048
  {
    var p: seq<Byte> := [];
    FeedDigit1();
    FeedStep(p, 0xFFFFFFFF, 0x31, 0x7C231048);
    assert p + [0x31] == [0x31];
  }

  lemma {:induction false} Prefix2()
    ensures Update(INITIAL, [0x31, 0x32]) == 0xB0ACBB32
  {
    Prefix1();
    var p: seq<Byte> := [0x31];
    FeedDigit2();
    FeedStep(p, 0x7C231048, 0x32, 0xB0ACBB32);
    assert p + [0x32] == [0x31, 0x32];
  }

  lemma {:induction false} Prefix3()
    ensures Update(INITIAL, [0x31, 0x32, 0x33]) == 0x77B79C2D
  {
    Prefix2();
    var p: seq<Byte> := [0x31, 0x32];
    FeedDigit3();
    FeedStep(p, 0xB0ACBB32, 0x33, 0x77B79C2D);
    assert p + [0x33] == [0x31, 0x32, 0x33];
  }

  lemma {:induction false} Prefix4()
    ensures Update(INITIAL, [0x31, 0x32, 0x33, 0x34]) == 0x641C1F5C
  {
    Prefix3();
    var p: seq<Byte> := [0x31, 0x32, 0x33];
    FeedDigit4();
    FeedStep(p, 0x77B79C2D, 0x34, 0x641C1F5C);
    assert p + [0x34] == [0x31, 0x32, 0x33, 0x34];
  }

  lemma {:induction false} Prefix5()
    ensures Update(INITIAL, [0x31, 0x32, 0x33, 0x34, 0x35]) == 0x340AC5E3
  {
    Prefix4();
    var p: seq<Byte> := [0x31, 0x32, 0x33, 0x34];
    FeedDigit5();
    FeedStep(p, 0x641C1F5C, 0x35, 0x340AC5E3);
    assert p + [0x35] == [0x31, 0x32, 0x33, 0x34, 0x35];
  }

  lemma {:induction false} Prefix6()
    ensures Update(INITIAL, [0x31, 0x32, 0x33, 0x34, 0x35, 0x36]) == 0xF68D2C9E
  {
    Prefix5();
    var p: seq<Byte> := [0x31, 0x32, 0x33, 0x34, 0x35];
    FeedDigit6();
    FeedStep(p, 0x340AC5E3, 0x36, 0xF68D2C9E);
    assert p + [0x36] == [0x31, 0x32, 0x33, 0x34, 0x35, 0x36];
  }

  lemma {:induction false} Prefix7()
    ensures Update(INITIAL, [0x31, 0x32, 0x33, 0x34, 0x35, 0x36, 0x37]) == 0xAFFC9660
  {
    Prefix6();
    var p: seq<Byte> := [0x31, 0x32, 0x33, 0x34, 0x35, 0x36];
    FeedDigit7();
    FeedStep(p, 0xF68D2C9E, 0x37, 0xAFFC9660);
    assert p + [0x37] == [0x31, 0x32, 0x33, 0x34, 0x35, 0x36, 0x37];
  }

  lemma {:induction false} Prefix8()
    ensures Update(INITIAL, [0x31, 0x32, 0x33, 0x34, 0x35, 0x36, 0x37, 0x38]) == 0x651F2550
  {
    Prefix7();
    var p: seq<Byte> := [0x31, 0x32, 0x33, 0x34, 0x35, 0x36, 0x37];
    FeedDigit8();
    FeedStep(p, 0xAFFC9660, 0x38, 0x651F2550);
    assert p + [0x38] == [0x31, 0x32, 0x33, 0x34, 0x35, 0x36, 0x37, 0x38];
  }

  lemma {:induction false} Prefix9()
    ensures Update(INITIAL, [0x31, 0x32, 0x33, 0x34, 0x35, 0x36, 0x37, 0x38, 0x39]) == 0x340BC6D9
  {
    Prefix8();
    var p: seq<Byte> := [0x31, 0x32, 0x33, 0x34, 0x35, 0x36, 0x37, 0x38];
    FeedDigit9();
    FeedStep(p, 0x651F2550, 0x39, 0x340BC6D9);
    assert p + [0x39] == [0x31, 0x32, 0x33, 0x34, 0x35, 0x36, 0x37, 0x38, 0x39];
  }

  /** The standard check value: CRC-32 of the ASCII digits "123456789" is 0xCBF43926. */
  lemma {:induction false} CheckValue(s: seq<Byte>)
    requires s == [0x31, 0x32, 0x33, 0x34, 0x35, 0x36, 0x37, 0x38, 0x39]
    ensures Crc(s) == 0xCBF4_3926
  {
    Prefix9();
    assert Value(0x340BC6D9) == 0xCBF4_3926;
  }
}
