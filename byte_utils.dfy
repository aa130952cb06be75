/**
 * The byte codec (ByteUtils.java): order-preserving fixed-width encodings of
 * 32- and 64-bit signed integers, the unsigned lexicographic comparator, the
 * 33-based string hash, `slice` and `toHex`.
 *
 * A Java byte is modelled by its unsigned value 0..255 (its bit pattern read
 * as an unsigned number); Java `int` and `long` values are mathematical
 * integers kept in range by `Narrow`.
 */
module ByteUtils {
  import opened Wrappers

  type Byte = x: int | 0 <= x < 256

  /** `b ^ 0x80`: toggles the top bit of an unsigned byte. */
  function FlipSignBit(b: Byte): (r: Byte)
  {
    if b < 0x80 then b + 0x80 else b - 0x80
  }

  const INT32_MIN: int := -0x8000_0000
  const INT32_MAX: int := 0x7FFF_FFFF
  const INT64_MIN: int := -0x8000_0000_0000_0000
  const INT64_MAX: int := 0x7FFF_FFFF_FFFF_FFFF

  predicate IsInt32(x: int) { INT32_MIN <= x <= INT32_MAX }
  predicate IsInt64(x: int) { INT64_MIN <= x <= INT64_MAX }

  /** The value of an array reference: `None` for Java's null. */
  function Contents(a: array?<Byte>): Option<seq<Byte>>
    reads a
  {
    if a == null then None else Some(a[..])
  }

  // ---------------------------------------------------------------------------
  // Arithmetic helpers
  // ---------------------------------------------------------------------------

  function Pow256(n: nat): (r: int)
    ensures r > 0
  {
    if n == 0 then 1 else Pow256(n - 1) * 256
  }

  /** Two's-complement narrowing to `n` bytes: Java's cast to `int` (n = 4) or `long` (n = 8). */
  function Narrow(x: int, n: nat): (r: int)
    requires n > 0
  {
    var m := x % Pow256(n);
    if m >= Pow256(n) / 2 then m - Pow256(n) else m
  }

  function Wrap32(x: int): int { Narrow(x, 4) }
  function Wrap64(x: int): int { Narrow(x, 8) }

  lemma {:induction false} DivModUnique(u: int, d: int, q: int, r: int)
    requires d > 0 && 0 <= r < d && u == d * q + r
    ensures u / d == q && u % d == r
  {
    var q', r' := u / d, u % d;
    var k := q - q';
    assert d * k == r' - r;
    if k >= 1 {
      assert d * k == d + d * (k - 1);
      MulNonNegative(d, k - 1);
    } else if k <= -1 {
      assert d * k == -d - d * (-k - 1);
      MulNonNegative(d, -k - 1);
    }
  }

  lemma {:induction false} MulNonNegative(a: int, b: int)
    requires a >= 0 && b >= 0
    ensures a * b >= 0
  {
  }

  /** Dividing by `a * b` is dividing by `a`, then by `b`; the remainder splits accordingly. */
  lemma {:induction false} DivModSplit(u: int, a: int, b: int)
    requires a > 0 && b > 0
    ensures u / (a * b) == (u / a) / b
    ensures u % (a * b) == ((u / a) % b) * a + u % a
  {
    var q, r := u / a, u % a;
    var q2, r2 := q / b, q % b;
    assert u == a * q + r;
    assert q == b * q2 + r2;
    assert u == (a * b) * q2 + (a * r2 + r) by {
      calc {
        u;
        a * q + r;
        a * (b * q2 + r2) + r;
        (a * b) * q2 + (a * r2 + r);
      }
    }
    assert 0 <= a * r2 + r < a * b by {
      MulNonNegative(b - 1 - r2, a);
      MulSub(b - 1, r2, a);
      MulNonNegative(r2, a);
    }
    DivModUnique(u, a * b, q2, a * r2 + r);
  }

  lemma {:induction false} DivAddMultiple(v: int, m: int, d: int)
    requires d > 0
    ensures (v + m * d) / d == v / d + m
    ensures (v + m * d) % d == v % d
  {
    var q, r := v / d, v % d;
    assert v + m * d == d * (q + m) + r;
    DivModUnique(v + m * d, d, q + m, r);
  }

  lemma {:induction false} Pow256Add(a: nat, b: nat)
    ensures Pow256(a + b) == Pow256(a) * Pow256(b)
    decreases b
  {
    if b > 0 {
      Pow256Add(a, b - 1);
      calc {
        Pow256(a + b);
        Pow256(a + b - 1) * 256;
        Pow256(a) * Pow256(b - 1) * 256;
        Pow256(a) * Pow256(b);
      }
    }
  }

  lemma {:induction false} NarrowInRange(x: int, n: nat)
    requires n > 0 && -(Pow256(n) / 2) <= x < Pow256(n) / 2
    ensures Narrow(x, n) == x
  {
    var p := Pow256(n);
    if x >= 0 {
      DivModUnique(x, p, 0, x);
    } else {
      DivModUnique(x, p, -1, x + p);
    }
  }

  /** A Java int is left alone by the 32-bit wrap, and every wrap is a Java int. */
  lemma {:induction false} Wrap32Identity(x: int)
    ensures IsInt32(x) ==> Wrap32(x) == x
    ensures IsInt32(Wrap32(x))
  {
    NarrowBounds(x, 4);
    if IsInt32(x) {
      NarrowInRange(x, 4);
    }
  }

  /** A sum just past the int range wraps to a negative int. */
  lemma {:induction false} Wrap32Over(x: int)
    requires INT32_MAX < x < 0x1_0000_0000
    ensures Wrap32(x) == x - 0x1_0000_0000
  {
    assert Pow256(4) == 0x1_0000_0000;
    DivModUnique(x, 0x1_0000_0000, 0, x);
  }

  lemma {:induction false} Wrap64Identity(x: int)
    ensures IsInt64(x) ==> Wrap64(x) == x
    ensures IsInt64(Wrap64(x))
  {
    NarrowBounds(x, 8);
    if IsInt64(x) {
      NarrowInRange(x, 8);
    }
  }

  lemma {:induction false} HalfPow256(n: nat)
    requires n > 0
    ensures Pow256(n) / 2 == 128 * Pow256(n - 1)
    ensures Pow256(n) == 2 * (Pow256(n) / 2)
  {
    DivModUnique(Pow256(n), 2, 128 * Pow256(n - 1), 0);
  }

  lemma {:induction false} NarrowBounds(x: int, n: nat)
    requires n > 0
    ensures -(Pow256(n) / 2) <= Narrow(x, n) < Pow256(n) / 2
    ensures Narrow(x, n) % Pow256(n) == x % Pow256(n)
  {
    var p := Pow256(n);
    HalfPow256(n);
    var m := x % p;
    DivModUnique(m, p, 0, m);
    if m >= p / 2 {
      DivAddMultiple(m, -1, p);
    }
  }

  /** Two values with the same remainder keep it after adding `y` and after multiplying by `c`. */
  lemma {:induction false} ModCongruent(a: int, b: int, y: int, c: int, p: int)
    requires p > 0 && a % p == b % p
    ensures (a + y) % p == (b + y) % p
    ensures (a * c) % p == (b * c) % p
  {
    var k := b / p - a / p;
    assert b - a == k * p by {
      assert a == p * (a / p) + a % p;
      assert b == p * (b / p) + b % p;
    }
    DivAddMultiple(a + y, k, p);
    assert b * c == a * c + (k * c) * p by {
      assert (b - a) * c == (k * p) * c;
    }
    DivAddMultiple(a * c, k * c, p);
  }

  /** Narrowing is compatible with addition, so intermediate Java overflows do not matter. */
  lemma {:induction false} NarrowAdd(x: int, y: int, n: nat)
    requires n > 0
    ensures Narrow(Narrow(x, n) + y, n) == Narrow(x + y, n)
  {
    NarrowBounds(x, n);
    ModCongruent(Narrow(x, n), x, y, 0, Pow256(n));
  }

  lemma {:induction false} NarrowMul(x: int, c: int, n: nat)
    requires n > 0
    ensures Narrow(Narrow(x, n) * c, n) == Narrow(x * c, n)
  {
    NarrowBounds(x, n);
    ModCongruent(Narrow(x, n), x, 0, c, Pow256(n));
  }

  // ---------------------------------------------------------------------------
  // Fixed-width integer encodings: toBytes(int), toBytes(long), toInt, toLong
  // ---------------------------------------------------------------------------

  /**
   * The low `n` bytes of `v`'s two's-complement image, most significant
   * first: byte `i` is `(v >> 8 * (n - 1 - i)) & 0xFF`.  An arithmetic right
   * shift is floor division and `& 0xFF` is the non-negative remainder.
   */
  function BigEndian(v: int, n: nat): (r: seq<Byte>)
    ensures |r| == n
  {
    seq(n, i requires 0 <= i < n => ((v / Pow256(n - 1 - i)) % 256) as Byte)
  }

  /** `bytes[0] = (byte) (bytes[0] ^ 0x80)`. */
  function FlipTop(s: seq<Byte>): (r: seq<Byte>)
    requires |s| > 0
    ensures |r| == |s|
  {
    s[0 := FlipSignBit(s[0])]
  }

  /** `toBytes(int)` (n = 4) and `toBytes(long)` (n = 8): big-endian with the sign bit flipped. */
  function EncodeSigned(v: int, n: nat): (r: seq<Byte>)
    requires n > 0
  {
    FlipTop(BigEndian(v, n))
  }

  function EncodeInt32(v: int): seq<Byte> { EncodeSigned(v, 4) }
  function EncodeInt64(v: int): seq<Byte> { EncodeSigned(v, 8) }

  /** The unsigned big-endian value of `s`. */
  function FromBigEndian(s: seq<Byte>): (r: nat)
    ensures r < Pow256(|s|)
  {
    if s == [] then 0
    else
      var r := FromBigEndian(s[..|s| - 1]) * 256 + s[|s| - 1] as int;
      assert r < Pow256(|s|) by {
        var p := Pow256(|s| - 1);
        assert FromBigEndian(s[..|s| - 1]) <= p - 1;
        assert FromBigEndian(s[..|s| - 1]) * 256 <= (p - 1) * 256;
      }
      r
  }

  /**
   * What `toInt` (n = 4) and `toLong` (n = 8) compute from the first `n` bytes:
   * flip the sign bit back, read big-endian, narrow to the Java type.
   */
  function DecodeSigned(s: seq<Byte>, n: nat): int
    requires 0 < n <= |s|
  {
    Narrow(FromBigEndian(FlipTop(s[..n])), n)
  }

  function DecodeInt32(s: seq<Byte>): int requires |s| >= 4 { DecodeSigned(s, 4) }
  function DecodeInt64(s: seq<Byte>): int requires |s| >= 8 { DecodeSigned(s, 8) }

  lemma {:induction false} BigEndianInit(v: int, n: nat)
    ensures BigEndian(v, n + 1)[..n] == BigEndian(v / 256, n)
    ensures BigEndian(v, n + 1)[n] == (v % 256) as Byte
  {
    forall i | 0 <= i < n
      ensures BigEndian(v, n + 1)[i] == BigEndian(v / 256, n)[i]
    {
      assert Pow256(n - i) == 256 * Pow256(n - 1 - i);
      DivModSplit(v, 256, Pow256(n - 1 - i));
    }
    assert Pow256(0) == 1;
  }

  lemma {:induction false} FromBigEndianOf(v: int, n: nat)
    ensures FromBigEndian(BigEndian(v, n)) == v % Pow256(n)
    decreases n
  {
    if n == 0 {
      DivModUnique(v, 1, v, 0);
    } else {
      var s := BigEndian(v, n);
      var p := Pow256(n - 1);
      BigEndianInit(v, n - 1);
      assert s[..n - 1] == BigEndian(v / 256, n - 1);
      FromBigEndianOf(v / 256, n - 1);
      var hi := FromBigEndian(s[..n - 1]);
      assert hi == (v / 256) % p;
      assert s[n - 1] as int == v % 256;
      assert FromBigEndian(s) == hi * 256 + v % 256;
      DivModSplit(v, 256, p);
      assert Pow256(n) == 256 * p;
    }
  }

  lemma {:induction false} FlipTopTwice(s: seq<Byte>)
    requires |s| > 0
    ensures FlipTop(FlipTop(s)) == s
  {
  }

  /** Round trip: `toInt(toBytes(v)) == v` and `toLong(toBytes(v)) == v` for every value of the Java type. */
  lemma {:induction false} DecodeEncode(v: int, n: nat)
    requires n > 0 && -(Pow256(n) / 2) <= v < Pow256(n) / 2
    ensures DecodeSigned(EncodeSigned(v, n), n) == v
  {
    var e := EncodeSigned(v, n);
    assert e[..n] == e;
    FlipTopTwice(BigEndian(v, n));
    FromBigEndianOf(v, n);
    NarrowAddZero(v, n);
    NarrowInRange(v, n);
  }

  lemma {:induction false} NarrowAddZero(v: int, n: nat)
    requires n > 0
    ensures Narrow(v % Pow256(n), n) == Narrow(v, n)
  {
    var p := Pow256(n);
    DivModUnique(v % p, p, 0, v % p);
  }

  lemma {:induction false} Int32RoundTrip(v: int)
    requires IsInt32(v)
    ensures |EncodeInt32(v)| == 4 && DecodeInt32(EncodeInt32(v)) == v
  {
    DecodeEncode(v, 4);
  }

  lemma {:induction false} Int64RoundTrip(v: int)
    requires IsInt64(v)
    ensures |EncodeInt64(v)| == 8 && DecodeInt64(EncodeInt64(v)) == v
  {
    DecodeEncode(v, 8);
  }

  /** Reading a big-endian image back and re-encoding it gives the same bytes. */
  lemma {:induction false} BigEndianOfValue(t: seq<Byte>)
    ensures BigEndian(FromBigEndian(t), |t|) == t
  {
    if t != [] {
      var n := |t| - 1;
      var init := t[..n];
      var v := FromBigEndian(t);
      BigEndianOfValue(init);
      DivModUnique(v, 256, FromBigEndian(init), t[n]);
      BigEndianInit(v, n);
      assert BigEndian(v, n + 1) == BigEndian(v, n + 1)[..n] + [BigEndian(v, n + 1)[n]];
      assert t == init + [t[n]];
    }
  }

  lemma {:induction false} PowSplit(n: nat, i: nat)
    requires i < n
    ensures Pow256(n) == (256 * Pow256(i)) * Pow256(n - 1 - i)
  {
    Pow256Add(i + 1, n - 1 - i);
    assert Pow256(i + 1) == 256 * Pow256(i);
  }

  lemma {:induction false} BigEndianModularAt(v: int, k: int, n: nat, i: nat)
    requires i < n
    ensures BigEndian(v + k * Pow256(n), n)[i] == BigEndian(v, n)[i]
  {
    var pi, pj := Pow256(i), Pow256(n - 1 - i);
    var q := 256 * pi;
    PowSplit(n, i);
    MulAssoc(k, q, pj);
    var w := BigEndian(v, n)[i];
    BigEndianAddAt(v, n, i, k * q);
    MulAssoc(k, pi, 256);
    DivAddMultiple(w, k * pi, 256);
    DivModUnique(w, 256, 0, w);
  }

  /** The image of `v` depends only on `v` modulo `256^n`. */
  lemma {:induction false} BigEndianModular(v: int, k: int, n: nat)
    ensures BigEndian(v + k * Pow256(n), n) == BigEndian(v, n)
  {
    forall i | 0 <= i < n
      ensures BigEndian(v + k * Pow256(n), n)[i] == BigEndian(v, n)[i]
    {
      BigEndianModularAt(v, k, n, i);
    }
  }

  /** Encoding a decoded value gives back the bytes it was read from. */
  lemma {:induction false} EncodeDecode(s: seq<Byte>, n: nat)
    requires 0 < n <= |s|
    ensures EncodeSigned(DecodeSigned(s, n), n) == s[..n]
  {
    var t := FlipTop(s[..n]);
    var u := FromBigEndian(t);
    var d := DecodeSigned(s, n);
    BigEndianOfValue(t);
    HalfPow256(n);
    DivModUnique(u, Pow256(n), 0, u);
    if u >= Pow256(n) / 2 {
      BigEndianModular(u, -1, n);
      assert d == u + -1 * Pow256(n);
    } else {
      assert d == u;
    }
    assert EncodeSigned(d, n) == FlipTop(t);
    FlipTopTwice(s[..n]);
  }

  lemma {:induction false} DecodeInRange(s: seq<Byte>, n: nat)
    requires 0 < n <= |s|
    ensures -(Pow256(n) / 2) <= DecodeSigned(s, n) < Pow256(n) / 2
  {
    NarrowBounds(FromBigEndian(FlipTop(s[..n])), n);
  }

  lemma {:induction false} Int32Codec(s: seq<Byte>)
    requires |s| >= 4
    ensures IsInt32(DecodeInt32(s)) && EncodeInt32(DecodeInt32(s)) == s[..4]
  {
    DecodeInRange(s, 4);
    EncodeDecode(s, 4);
  }

  lemma {:induction false} Int64Codec(s: seq<Byte>)
    requires |s| >= 8
    ensures IsInt64(DecodeInt64(s)) && EncodeInt64(DecodeInt64(s)) == s[..8]
  {
    DecodeInRange(s, 8);
    EncodeDecode(s, 8);
  }

  lemma {:induction false} MulAssoc(x: int, y: int, z: int)
    ensures x * (y * z) == (x * y) * z
  {
  }

  /** Adding `m * 256^k` to `v` moves byte `n-1-k` of the image by `m` (mod 256) and leaves the lower bytes alone. */
  lemma {:induction false} BigEndianAddAt(v: int, n: nat, i: nat, m: int)
    requires i < n
    ensures BigEndian(v + m * Pow256(n - 1 - i), n)[i] as int == (BigEndian(v, n)[i] as int + m) % 256
  {
    var p := Pow256(n - 1 - i);
    DivAddMultiple(v, m, p);
    var w := (v / p) % 256;
    DivModUnique(w, 256, 0, w);
    ModCongruent(v / p, w, m, 0, 256);
  }

  lemma {:induction false} FlipSignBitIsAdd128(b: Byte)
    ensures FlipSignBit(b) == (b + 128) % 256
  {
    if b >= 128 {
      DivModUnique(b + 128, 256, 1, b - 128);
    } else {
      DivModUnique(b + 128, 256, 0, b + 128);
    }
  }

  lemma {:induction false} HalfSplit(n: nat, i: nat)
    requires i < n
    ensures Pow256(n) / 2 == (128 * Pow256(i)) * Pow256(n - 1 - i)
  {
    HalfPow256(n);
    Pow256Add(i, n - 1 - i);
    MulAssoc(128, Pow256(i), Pow256(n - 1 - i));
  }

  lemma {:induction false} EncodeIsBiasedAt(v: int, n: nat, i: nat)
    requires i < n
    ensures EncodeSigned(v, n)[i] == BigEndian(v + Pow256(n) / 2, n)[i]
  {
    var a := Pow256(i);
    HalfSplit(n, i);
    BigEndianAddAt(v, n, i, 128 * a);
    var w := BigEndian(v, n)[i];
    if i == 0 {
      FlipSignBitIsAdd128(w);
    } else {
      assert 128 * a == (128 * Pow256(i - 1)) * 256;
      DivAddMultiple(w, 128 * Pow256(i - 1), 256);
      DivModUnique(w, 256, 0, w);
    }
  }

  /** Flipping the sign bit is the same as biasing by half the range: `toBytes(v)` is the big-endian image of `v + 2^(8n-1)`. */
  lemma {:induction false} EncodeIsBiased(v: int, n: nat)
    requires n > 0
    ensures EncodeSigned(v, n) == BigEndian(v + Pow256(n) / 2, n)
  {
    forall i | 0 <= i < n
      ensures EncodeSigned(v, n)[i] == BigEndian(v + Pow256(n) / 2, n)[i]
    {
      EncodeIsBiasedAt(v, n, i);
    }
  }

  lemma {:induction false} MulSub(a: int, b: int, p: int)
    ensures (a - b) * p == a * p - b * p
  {
  }

  /** Unsigned byte order of two big-endian images follows the order of the encoded values. */
  lemma {:induction false} MulAtLeastOnce(k: int, p: int)
    requires p >= 0
    ensures k >= 1 ==> k * p >= p
  {
    if k >= 1 {
      MulNonNegative(k - 1, p);
    }
  }

  /** Splits `u % 256^n` into its top byte and the rest. */
  lemma {:induction false} TopByteSplit(u: int, n: nat)
    requires n > 0
    ensures BigEndian(u, n)[0] * Pow256(n - 1) + u % Pow256(n - 1) == u % Pow256(n)
    ensures BigEndian(u, n)[1..] == BigEndian(u, n - 1)
  {
    DivModSplit(u, Pow256(n - 1), 256);
  }

  lemma {:induction false} BigEndianOrdered(u1: int, u2: int, n: nat)
    requires u1 % Pow256(n) < u2 % Pow256(n)
    ensures CompareBytes(BigEndian(u1, n), BigEndian(u2, n)) < 0
  {
    if n == 0 {
      assert false;
    } else {
      var p := Pow256(n - 1);
      TopByteSplit(u1, n);
      TopByteSplit(u2, n);
      var b1: int, b2: int := BigEndian(u1, n)[0], BigEndian(u2, n)[0];
      MulSub(b1, b2, p);
      MulAtLeastOnce(b1 - b2, p);
      if b1 == b2 {
        BigEndianOrdered(u1, u2, n - 1);
      }
    }
  }

  /** The encodings order exactly as the signed values: negative < zero < positive. */
  lemma {:induction false} EncodingPreservesOrder(v1: int, v2: int, n: nat)
    requires n > 0
    requires -(Pow256(n) / 2) <= v1 < v2 < Pow256(n) / 2
    ensures CompareBytes(EncodeSigned(v1, n), EncodeSigned(v2, n)) < 0
  {
    var half := Pow256(n) / 2;
    EncodeIsBiased(v1, n);
    EncodeIsBiased(v2, n);
    DivModUnique(v1 + half, Pow256(n), 0, v1 + half);
    DivModUnique(v2 + half, Pow256(n), 0, v2 + half);
    BigEndianOrdered(v1 + half, v2 + half, n);
  }

  lemma {:induction false} Int32OrderPreserved(v1: int, v2: int)
    requires IsInt32(v1) && IsInt32(v2) && v1 < v2
    ensures CompareBytes(EncodeInt32(v1), EncodeInt32(v2)) < 0
  {
    EncodingPreservesOrder(v1, v2, 4);
  }

  lemma {:induction false} Int64OrderPreserved(v1: int, v2: int)
    requires IsInt64(v1) && IsInt64(v2) && v1 < v2
    ensures CompareBytes(EncodeInt64(v1), EncodeInt64(v2)) < 0
  {
    EncodingPreservesOrder(v1, v2, 8);
  }

  /** `toBytes(int)`: fills the array from the last byte backwards, then flips the sign bit. */
  method ToBytesInt(v: int) returns (bytes: array<Byte>)
    requires IsInt32(v)
    ensures fresh(bytes) && bytes[..] == EncodeInt32(v)
  {
    bytes := new Byte[4];
    var i := 3;
    while i >= 0
      invariant -1 <= i <= 3
      invariant forall k :: i < k < 4 ==> bytes[k] == BigEndian(v, 4)[k]
    {
      // (v >> ((3 - i) << 3)) & 0xFF
      bytes[i] := ((v / Pow256(3 - i)) % 256) as Byte;
      i := i - 1;
    }
    assert bytes[..] == BigEndian(v, 4);
    bytes[0] := FlipSignBit(bytes[0]);
  }

  /** `toBytes(long)`: the same on eight bytes. */
  method ToBytesLong(v: int) returns (bytes: array<Byte>)
    requires IsInt64(v)
    ensures fresh(bytes) && bytes[..] == EncodeInt64(v)
  {
    bytes := new Byte[8];
    var i := 7;
    while i >= 0
      invariant -1 <= i <= 7
      invariant forall k :: i < k < 8 ==> bytes[k] == BigEndian(v, 8)[k]
    {
      bytes[i] := ((v / Pow256(7 - i)) % 256) as Byte;
      i := i - 1;
    }
    assert bytes[..] == BigEndian(v, 8);
    bytes[0] := FlipSignBit(bytes[0]);
  }

  lemma {:induction false} FromBigEndianSnoc(s: seq<Byte>, i: nat)
    requires i < |s|
    ensures FromBigEndian(s[..i + 1]) == FromBigEndian(s[..i]) * 256 + s[i] as int
  {
    assert s[..i + 1][..i] == s[..i];
  }

  /** One more byte ORed in below the bytes already accumulated. */
  lemma {:induction false} AccumulateStep(s: seq<Byte>, i: nat, n: nat, acc: int)
    requires i < n <= |s|
    requires acc == FromBigEndian(s[..i]) * Pow256(n - i)
    ensures acc + s[i] as int * Pow256(n - 1 - i) == FromBigEndian(s[..i + 1]) * Pow256(n - 1 - i)
  {
    FromBigEndianSnoc(s, i);
    var p := Pow256(n - 1 - i);
    var f := FromBigEndian(s[..i]);
    assert Pow256(n - i) == p * 256;
    assert f * (p * 256) + s[i] as int * p == (f * 256 + s[i] as int) * p;
  }

  /**
   * `toInt`: flips `bytes[0]` in place, ORs the four bytes into place and
   * flips `bytes[0]` back, so the caller's array ends unchanged.  Each step
   * ORs a masked byte into bits no earlier step set, so `|` adds it; the
   * narrowing of `v |= ...` to `int` is applied once at the end.
   */
  method ToInt(bytes: array<Byte>) returns (v: int)
    requires bytes.Length >= 4
    modifies bytes
    ensures bytes[..] == old(bytes[..])
    ensures v == DecodeInt32(old(bytes[..]))
  {
    var acc := 0;
    bytes[0] := FlipSignBit(bytes[0]);
    ghost var flipped := bytes[..];
    for i := 0 to 4
      invariant bytes[..] == flipped
      invariant acc == FromBigEndian(bytes[..i]) * Pow256(4 - i)
    {
      AccumulateStep(bytes[..], i, 4, acc);
      acc := acc + bytes[i] as int * Pow256(3 - i);
    }
    assert flipped[..4] == FlipTop(old(bytes[..])[..4]);
    bytes[0] := FlipSignBit(bytes[0]);
    assert bytes[..] == old(bytes[..]);
    v := Narrow(acc, 4);
  }

  /**
   * `toLong`: the same on eight bytes, except that it never flips `bytes[0]`
   * back: the caller's array is left with its sign bit inverted.
   */
  method ToLong(bytes: array<Byte>) returns (v: int)
    requires bytes.Length >= 8
    modifies bytes
    ensures bytes[..] == FlipTop(old(bytes[..]))
    ensures v == DecodeInt64(old(bytes[..]))
  {
    var acc := 0;
    bytes[0] := FlipSignBit(bytes[0]);
    ghost var flipped := bytes[..];
    for i := 0 to 8
      invariant bytes[..] == flipped
      invariant acc == FromBigEndian(bytes[..i]) * Pow256(8 - i)
    {
      AccumulateStep(bytes[..], i, 8, acc);
      acc := acc + bytes[i] as int * Pow256(7 - i);
    }
    assert flipped[..8] == FlipTop(old(bytes[..])[..8]);
    v := Narrow(acc, 8);
  }

  // ---------------------------------------------------------------------------
  // compare
  // ---------------------------------------------------------------------------

  /** Unsigned lexicographic comparison; a proper prefix sorts first. */
  function CompareBytes(a: seq<Byte>, b: seq<Byte>): int
  {
    if a == [] || b == [] then |a| - |b|
    else if a[0] != b[0] then a[0] as int - b[0] as int
    else CompareBytes(a[1..], b[1..])
  }

  /** `compare` including its null handling: null is below every array, two nulls are equal. */
  function CompareNullable(a: Option<seq<Byte>>, b: Option<seq<Byte>>): int
  {
    match (a, b)
    case (None, None) => 0
    case (None, Some(_)) => -1
    case (Some(_), None) => 1
    case (Some(x), Some(y)) => CompareBytes(x, y)
  }

  lemma {:induction false} CompareZeroIffEqual(a: seq<Byte>, b: seq<Byte>)
    ensures CompareBytes(a, b) == 0 <==> a == b
  {
    if a != [] && b != [] && a[0] == b[0] {
      CompareZeroIffEqual(a[1..], b[1..]);
      if a[1..] == b[1..] {
        assert a == [a[0]] + a[1..] && b == [b[0]] + b[1..];
      }
    }
  }

  lemma {:induction false} CompareAntisymmetric(a: seq<Byte>, b: seq<Byte>)
    ensures CompareBytes(b, a) == -CompareBytes(a, b)
  {
    if a != [] && b != [] && a[0] == b[0] {
      CompareAntisymmetric(a[1..], b[1..]);
    }
  }

  lemma {:induction false} CompareTransitive(a: seq<Byte>, b: seq<Byte>, c: seq<Byte>)
    requires CompareBytes(a, b) < 0 && CompareBytes(b, c) < 0
    ensures CompareBytes(a, c) < 0
  {
    if a != [] && b != [] && c != [] && a[0] == b[0] && b[0] == c[0] {
      CompareTransitive(a[1..], b[1..], c[1..]);
    }
  }

  lemma {:induction false} ComparePrefixFirst(a: seq<Byte>, b: seq<Byte>)
    requires |a| < |b| && a == b[..|a|]
    ensures CompareBytes(a, b) < 0
  {
    if a != [] {
      assert a[1..] == b[1..][..|a| - 1];
      ComparePrefixFirst(a[1..], b[1..]);
    }
  }

  /** `compare(lhs, rhs)`. */
  method Compare(lhs: array?<Byte>, rhs: array?<Byte>) returns (r: int)
    ensures r == CompareNullable(Contents(lhs), Contents(rhs))
  {
    if lhs == rhs {
      if lhs != null {
        CompareZeroIffEqual(lhs[..], lhs[..]);
      }
      return 0;
    } else if lhs == null {
      return -1;
    } else if rhs == null {
      return 1;
    }
    var i := 0;
    while i < lhs.Length && i < rhs.Length
      invariant 0 <= i <= lhs.Length && 0 <= i <= rhs.Length
      invariant CompareBytes(lhs[..], rhs[..]) == CompareBytes(lhs[i..], rhs[i..])
    {
      var x := lhs[i] as int;
      var y := rhs[i] as int;
      if x != y {
        return x - y;
      }
      assert lhs[i..][1..] == lhs[i + 1..] && rhs[i..][1..] == rhs[i + 1..];
      i := i + 1;
    }
    return lhs.Length - rhs.Length;
  }

  // ---------------------------------------------------------------------------
  // hash
  // ---------------------------------------------------------------------------

  /** A Java byte as a signed value. */
  function SignedByte(b: Byte): int
  {
    if b < 0x80 then b as int else b as int - 256
  }

  /** One step of `h = (h << 5) + h + b` in 32-bit arithmetic. */
  function HashStep(h: int, b: Byte): int
  {
    Wrap32(Wrap32(Wrap32(h * 32) + h) + SignedByte(b))
  }

  /** The value of `h` after the loop has consumed `s`. */
  function HashPrefix(s: seq<Byte>): int
  {
    if s == [] then 1 else HashStep(HashPrefix(s[..|s| - 1]), s[|s| - 1])
  }

  /** `hash(key)`. */
  function Hash(key: Option<seq<Byte>>): int
  {
    match key
    case None => 0
    case Some(s) => HashPrefix(s)
  }

  /** The polynomial of the hash: `33^|s| + sum of s[i] * 33^(|s|-1-i)` over the signed bytes. */
  function HashPolynomial(s: seq<Byte>): int
  {
    if s == [] then 1 else 33 * HashPolynomial(s[..|s| - 1]) + SignedByte(s[|s| - 1])
  }

  /** The hash is the base-33 polynomial with seed 1, reduced to a Java int. */
  lemma {:induction false} HashIsPolynomial(s: seq<Byte>)
    ensures HashPrefix(s) == Wrap32(HashPolynomial(s))
  {
    if s == [] {
      NarrowInRange(1, 4);
    } else {
      var init := s[..|s| - 1];
      var b := s[|s| - 1];
      HashIsPolynomial(init);
      var h := HashPrefix(init);
      var p := HashPolynomial(init);
      // h == Wrap32(p)
      calc {
        HashPrefix(s);
        Wrap32(Wrap32(Wrap32(h * 32) + h) + SignedByte(b));
        { NarrowAdd(Wrap32(h * 32) + h, SignedByte(b), 4); }
        Wrap32(Wrap32(h * 32) + h + SignedByte(b));
        { NarrowAdd(h * 32, h + SignedByte(b), 4); }
        Wrap32(h * 32 + h + SignedByte(b));
        Wrap32(Wrap32(p) * 33 + SignedByte(b));
        { NarrowMul(p, 33, 4); NarrowAdd(Wrap32(p) * 33, SignedByte(b), 4);
          NarrowAdd(p * 33, SignedByte(b), 4); }
        Wrap32(p * 33 + SignedByte(b));
      }
    }
  }

  /** `hash(key)` for a non-null key, as the source's loop. */
  method HashBytes(key: array?<Byte>) returns (h: int)
    ensures h == Hash(Contents(key))
  {
    if key == null {
      return 0;
    }
    h := 1;
    for i := 0 to key.Length
      invariant h == HashPrefix(key[..i])
    {
      assert key[..i + 1][..i] == key[..i];
      h := Wrap32(Wrap32(Wrap32(h * 32) + h) + SignedByte(key[i]));
    }
    assert key[..key.Length] == key[..];
  }

  // ---------------------------------------------------------------------------
  // slice
  // ---------------------------------------------------------------------------

  /**
   * `slice(bytes, offset, len)`.  The range check adds `offset + len` in
   * 32-bit arithmetic; when that sum overflows the check passes and the copy
   * itself fails with an index error.
   */
  function SliceOf(bytes: Option<seq<Byte>>, offset: int, len: int): (r: Result<seq<Byte>>)
    ensures r.Ok? ==> bytes.Some? && 0 <= offset && 0 <= len && offset + len <= |bytes.value|
    ensures r.Ok? ==> r.value == bytes.value[offset..offset + len]
  {
    match bytes
    case None => Err(NullBuffer)
    case Some(s) =>
      if offset < 0 || len < 0 || Wrap32(offset + len) > |s| then Err(InvalidOffsetLen)
      else if offset + len > |s| then Err(IndexOutOfBounds)
      else Ok(s[offset..offset + len])
  }

  /** For Java-int arguments the 32-bit sum overflows only past the end of any real array. */
  lemma {:induction false} SliceSucceeds(s: seq<Byte>, offset: int, len: int)
    requires IsInt32(offset) && IsInt32(len) && |s| <= INT32_MAX
    ensures SliceOf(Some(s), offset, len).Ok? <==> 0 <= offset && 0 <= len && offset + len <= |s|
    ensures SliceOf(Some(s), offset, len).Ok? ==>
              |SliceOf(Some(s), offset, len).value| == len &&
              forall i :: 0 <= i < len ==> SliceOf(Some(s), offset, len).value[i] == s[offset + i]
  {
    if 0 <= offset && 0 <= len && offset + len <= |s| {
      NarrowInRange(offset + len, 4);
    }
  }

  /** A range inside the array is sliced out as it is. */
  lemma {:induction false} SliceOk(s: seq<Byte>, offset: int, len: int)
    requires 0 <= offset && 0 <= len && offset + len <= |s| <= INT32_MAX
    ensures SliceOf(Some(s), offset, len) == Ok(s[offset..offset + len])
  {
    NarrowInRange(offset + len, 4);
  }

  /** `slice` on an array: a fresh copy of the requested range, or the failure. */
  method Slice(bytes: array?<Byte>, offset: int, len: int) returns (r: Result<array<Byte>>)
    requires IsInt32(offset) && IsInt32(len)
    ensures r.Ok? ==> fresh(r.value) && SliceOf(Contents(bytes), offset, len) == Ok(r.value[..])
    ensures r.Err? ==> SliceOf(Contents(bytes), offset, len) == Err(r.error)
  {
    if bytes == null {
      return Err(NullBuffer);
    } else if offset < 0 || len < 0 || Wrap32(offset + len) > bytes.Length {
      return Err(InvalidOffsetLen);
    } else if offset + len > bytes.Length {
      return Err(IndexOutOfBounds);
    }
    var res := new Byte[len];
    forall i | 0 <= i < len {
      res[i] := bytes[offset + i];
    }
    assert res[..] == bytes[offset..offset + len];
    return Ok(res);
  }

  /** `System.arraycopy(src, 0, dst, pos, src.length)`. */
  method ArrayCopy(src: seq<Byte>, dst: array<Byte>, pos: int)
    requires 0 <= pos && pos + |src| <= dst.Length
    modifies dst
    ensures dst[..] == old(dst[..pos]) + src + old(dst[pos + |src|..])
  {
    forall i | 0 <= i < |src| {
      dst[pos + i] := src[i];
    }
    assert dst[..] == old(dst[..pos]) + src + old(dst[pos + |src|..]);
  }

  /** `System.arraycopy` at a write cursor: what has been written so far grows by `src`. */
  method CopyAt(src: seq<Byte>, dst: array<Byte>, pos: int, ghost written: seq<Byte>)
    requires 0 <= pos && pos + |src| <= dst.Length && dst[..pos] == written
    modifies dst
    ensures dst[..pos + |src|] == written + src
  {
    ArrayCopy(src, dst, pos);
    assert dst[..pos + |src|] == dst[..][..pos + |src|];
  }

  /** Nothing comes before the start of an array. */
  lemma {:induction false} EmptyPrefix(a: array<Byte>)
    ensures a[..0] == []
  {
  }

  /** An array's contents are its prefix of its full length. */
  lemma {:induction false} WholeArray(a: array<Byte>)
    ensures a[..] == a[..a.Length]
  {
  }

  /** A slice of length one holds one element. */
  lemma {:induction false} SingleSlice(s: seq<Byte>, a: int)
    requires 0 <= a < |s|
    ensures s[a..a + 1] == [s[a]]
  {
  }

  lemma {:induction false} EmptyConcat(s: seq<Byte>)
    ensures [] + s == s
  {
  }

  /** A non-empty sequence is its front followed by its last element. */
  lemma {:induction false} InitLast<T>(s: seq<T>)
    requires s != []
    ensures s == s[..|s| - 1] + [s[|s| - 1]]
  {
  }

  /** A slice of a slice is a slice. */
  lemma {:induction false} SubSlice(s: seq<Byte>, a: int, b: int, i: int, j: int)
    requires 0 <= a <= b <= |s| && 0 <= i <= j <= b - a
    ensures s[a..b][i..j] == s[a + i..a + j]
  {
    forall k | 0 <= k < j - i
      ensures s[a..b][i..j][k] == s[a + i..a + j][k]
    {
    }
  }

  /** Two adjacent slices make the slice spanning both. */
  lemma {:induction false} SliceJoin(s: seq<Byte>, a: int, b: int, c: int)
    requires 0 <= a <= b <= c <= |s|
    ensures s[a..c] == s[a..b] + s[b..c]
  {
  }

  /** The two halves of a concatenation. */
  lemma {:induction false} ConcatHalves(x: seq<Byte>, y: seq<Byte>)
    ensures (x + y)[..|x|] == x && (x + y)[|x|..] == y
  {
  }

  /** A prefix of a concatenation that ends inside its first part. */
  lemma {:induction false} TakeOfConcat(x: seq<Byte>, y: seq<Byte>, t: int)
    requires 0 <= t <= |x|
    ensures (x + y)[..t] == x[..t]
  {
  }

  /**
   * When `whole` sits at `pos` in `buf` and begins with `x + y`, then `y`
   * sits right after `x`.
   */
  lemma {:induction false} PartAt(buf: seq<Byte>, pos: int, whole: seq<Byte>, x: seq<Byte>, y: seq<Byte>, at: int, len: int)
    requires 0 <= pos && pos + |whole| <= |buf| && buf[pos..pos + |whole|] == whole
    requires |x| + |y| <= |whole| && whole[..|x| + |y|] == x + y
    requires at == pos + |x| && len == |y|
    ensures at + len <= pos + |whole| && buf[at..at + len] == y
  {
    forall k | 0 <= k < len
      ensures buf[at..at + len][k] == y[k]
    {
      assert buf[at + k] == whole[|x| + k];
      assert whole[|x| + k] == (x + y)[|x| + k];
    }
  }

  /** The three parts of `a + b + c` sitting at `pos`, each at its place. */
  lemma {:induction false} ThreeParts(buf: seq<Byte>, pos: int, a: seq<Byte>, b: seq<Byte>, c: seq<Byte>,
                                      i: int, j: int, k: int)
    requires 0 <= pos && i == pos + |a| && j == i + |b| && k == j + |c| && k <= |buf|
    requires buf[pos..k] == a + b + c
    ensures buf[pos..i] == a && buf[i..j] == b && buf[j..k] == c
  {
    forall n | 0 <= n < |a| ensures buf[pos..i][n] == a[n] {
      assert buf[pos + n] == (a + b + c)[n];
    }
    forall n | 0 <= n < |b| ensures buf[i..j][n] == b[n] {
      assert buf[i + n] == (a + b + c)[|a| + n];
    }
    forall n | 0 <= n < |c| ensures buf[j..k][n] == c[n] {
      assert buf[j + n] == (a + b + c)[|a| + |b| + n];
    }
  }

  /** Three adjacent slices holding `a`, `b` and `c` make a slice holding `a + b + c`. */
  lemma {:induction false} JoinThree(buf: seq<Byte>, pos: int, a: seq<Byte>, b: seq<Byte>, c: seq<Byte>,
                                     i: int, j: int, k: int)
    requires 0 <= pos <= i <= j <= k <= |buf|
    requires buf[pos..i] == a && buf[i..j] == b && buf[j..k] == c
    ensures buf[pos..k] == a + b + c
  {
    assert buf[pos..k] == buf[pos..i] + buf[i..j] + buf[j..k];
  }

  /** Four adjacent slices holding `a`, `b`, `c` and `d` make a slice holding `a + b + c + d`. */
  lemma {:induction false} JoinFour(buf: seq<Byte>, pos: int, a: seq<Byte>, b: seq<Byte>, c: seq<Byte>, d: seq<Byte>,
                                    i: int, j: int, k: int, l: int)
    requires 0 <= pos <= i <= j <= k <= l <= |buf|
    requires buf[pos..i] == a && buf[i..j] == b && buf[j..k] == c && buf[k..l] == d
    ensures buf[pos..l] == a + b + c + d
  {
    JoinThree(buf, pos, a, b, c, i, j, k);
    assert buf[pos..l] == buf[pos..k] + buf[k..l];
  }

  /** An encoded int takes 4 bytes and an encoded long 8, whatever the value. */
  lemma {:induction false} EncodedLengths(v: int)
    ensures |EncodeInt32(v)| == 4 && |EncodeInt64(v)| == 8
  {
  }

  /** A slice is the tail of a prefix. */
  lemma {:induction false} DropTake(s: seq<Byte>, a: int, b: int)
    requires 0 <= a <= b <= |s|
    ensures s[a..b] == s[..b][a..]
  {
  }

  lemma {:induction false} TakeAll(s: seq<Byte>)
    ensures s[..|s|] == s
  {
  }

  lemma {:induction false} AppendAssoc(a: seq<Byte>, b: seq<Byte>, c: seq<Byte>)
    ensures (a + b) + c == a + (b + c)
  {
  }

  // ---------------------------------------------------------------------------
  // toHex
  // ---------------------------------------------------------------------------

  const HEX_DIGITS: string := "0123456789ABCDEF"

  /** `"\\x"`, then the digits `(x >> 4) & 0x0F` and `x & 0x0F` of the signed byte `x`. */
  function HexOfByte(b: Byte): (r: string)
    ensures |r| == 4
  {
    var x := SignedByte(b);
    ['\\', 'x', HEX_DIGITS[(x / 16) % 16], HEX_DIGITS[x % 16]]
  }

  function Hex(s: seq<Byte>): (r: string)
    ensures |r| == 4 * |s|
  {
    if s == [] then "" else Hex(s[..|s| - 1]) + HexOfByte(s[|s| - 1])
  }

  /** The position of a hex digit in `HEX_DIGITS`. */
  function HexValue(c: char): int
  {
    if '0' <= c <= '9' then c as int - '0' as int
    else if 'A' <= c <= 'F' then c as int - 'A' as int + 10
    else -1
  }

  lemma {:induction false} HexOfByteDigits(b: Byte)
    ensures HexOfByte(b)[0] == '\\' && HexOfByte(b)[1] == 'x'
    ensures HexValue(HexOfByte(b)[2]) == b as int / 16
    ensures HexValue(HexOfByte(b)[3]) == b as int % 16
  {
    var x := SignedByte(b);
    HexDigitsOfSigned(b);
    HexDigitValue((x / 16) % 16);
    HexDigitValue(x % 16);
  }

  /** The digits of the signed byte are those of the unsigned one. */
  lemma {:induction false} HexDigitsOfSigned(b: Byte)
    ensures (SignedByte(b) / 16) % 16 == b as int / 16 && SignedByte(b) % 16 == b as int % 16
  {
    if b >= 0x80 {
      DivAddMultiple(b as int, -16, 16);
      DivAddMultiple(b as int / 16 - 16, 1, 16);
    }
  }

  /** `HEX_DIGITS` lists the digits in order. */
  lemma {:induction false} HexDigitValue(d: int)
    requires 0 <= d < 16
    ensures HexValue(HEX_DIGITS[d]) == d
  {
  }

  /** Every byte becomes `\xHH`, and the two digits give back the unsigned byte. */
  lemma {:induction false} HexDecodes(s: seq<Byte>, i: nat)
    requires i < |s|
    ensures Hex(s)[4 * i] == '\\' && Hex(s)[4 * i + 1] == 'x'
    ensures HexValue(Hex(s)[4 * i + 2]) * 16 + HexValue(Hex(s)[4 * i + 3]) == s[i] as int
  {
    var init := s[..|s| - 1];
    if i < |s| - 1 {
      HexDecodes(init, i);
      assert Hex(s)[4 * i..4 * i + 4] == Hex(init)[4 * i..4 * i + 4];
    } else {
      HexOfByteDigits(s[i]);
      assert Hex(s)[4 * i..] == HexOfByte(s[i]);
    }
  }

  /**
   * `toHex(bytes, offset, len)`: the loop reads `bytes[i]` for `i` from
   * `offset` while `i < offset + len`, that bound a Java int, so a range whose
   * end wraps below `offset` yields nothing, and a bad range fails only when
   * the loop runs.
   */
  method ToHex(bytes: array<Byte>, offset: int, len: int) returns (r: Result<string>)
    requires IsInt32(offset) && IsInt32(len)
    ensures Wrap32(offset + len) <= offset ==> r == Ok("")
    ensures Wrap32(offset + len) > offset && (offset < 0 || Wrap32(offset + len) > bytes.Length) ==>
              r == Err(IndexOutOfBounds)
    ensures Wrap32(offset + len) > offset && 0 <= offset && Wrap32(offset + len) <= bytes.Length ==>
              offset + len == Wrap32(offset + len) && r == Ok(Hex(bytes[offset..offset + len]))
  {
    var end := Wrap32(offset + len);
    if offset + len > INT32_MAX {
      Wrap32Over(offset + len);
    }
    if end <= offset {
      return Ok("");
    }
    if offset < 0 || end > bytes.Length {
      return Err(IndexOutOfBounds);
    }
    Wrap32Identity(offset + len);
    var sb := "";
    for i := offset to end
      invariant sb == Hex(bytes[offset..i])
    {
      assert bytes[offset..i + 1][..i - offset] == bytes[offset..i];
      var x := SignedByte(bytes[i]);
      sb := sb + ['\\', 'x'] + [HEX_DIGITS[(x / 16) % 16]] + [HEX_DIGITS[x % 16]];
    }
    return Ok(sb);
  }

  /** The example of the project's tests: `toHex(toBytes(123456))` is `\x80\x01\xE2\x40`. */
  lemma {:induction false} HexOfEncoded123456()
    ensures Hex(EncodeInt32(123456)) == "\\x80\\x01\\xE2\\x40"
  {
    var e := EncodeInt32(123456);
    Encoded123456();
    HexOfFour(e);
    HexOfExampleBytes();
  }

  lemma {:induction false} HexOfExampleBytes()
    ensures HexOfByte(0x80) == "\\x80" && HexOfByte(0x01) == "\\x01"
    ensures HexOfByte(0xE2) == "\\xE2" && HexOfByte(0x40) == "\\x40"
  {
  }

  lemma {:induction false} Encoded123456()
    ensures EncodeInt32(123456) == [0x80, 0x01, 0xE2, 0x40]
  {
    assert Pow256(1) == 256 && Pow256(2) == 65536 && Pow256(3) == 16777216;
    var be := BigEndian(123456, 4);
    assert be[0] == 0 && be[1] == 1 && be[2] == 0xE2 && be[3] == 0x40;
  }

  lemma {:induction false} HexOfFour(s: seq<Byte>)
    requires |s| == 4
    ensures Hex(s) == HexOfByte(s[0]) + HexOfByte(s[1]) + HexOfByte(s[2]) + HexOfByte(s[3])
  {
    var s1, s2, s3 := s[..1], s[..2], s[..3];
    assert s3[..2] == s2 && s2[..1] == s1 && s1[..0] == [] && s[..3] == s3;
    assert Hex(s1) == HexOfByte(s[0]);
    assert Hex(s2) == Hex(s1) + HexOfByte(s[1]);
    assert Hex(s3) == Hex(s2) + HexOfByte(s[2]);
    assert Hex(s) == Hex(s3) + HexOfByte(s[3]);
  }
}
