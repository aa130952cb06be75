/**
 * The per-block Bloom filter: `k` probes per key into a bit array of
 * `bitLen` bits, the probe sequence stepping `h += (h >> 17) | (h << 15)`
 * in 32-bit arithmetic from the key's 33-hash.
 *
 * Bits are numbered within a byte from the least significant one, as
 * `result[idx / 8] |= 1 << (idx % 8)` does.
 */
module BloomFilters {
  import opened Wrappers
  import opened ByteUtils

  /** The parameters every block filter is built and read with (`DiskFile`'s constants). */
  const BLOOM_FILTER_HASH_COUNT: int := 3
  const BLOOM_FILTER_BITS_PER_KEY: int := 10

  // ---------------------------------------------------------------------------
  // Bits of a byte
  // ---------------------------------------------------------------------------

  function Pow2(n: nat): (r: nat)
    ensures r > 0
  {
    if n == 0 then 1 else 2 * Pow2(n - 1)
  }

  /** The lowest `n` bits of `v`, least significant first. */
  function Bits(v: nat, n: nat): (r: seq<bool>)
    ensures |r| == n
  {
    if n == 0 then [] else [v % 2 == 1] + Bits(v / 2, n - 1)
  }

  /** The number whose bits, least significant first, are `x`. */
  function FromBits(x: seq<bool>): (r: nat)
    ensures r < Pow2(|x|)
  {
    if x == [] then 0 else (if x[0] then 1 else 0) + 2 * FromBits(x[1..])
  }

  lemma {:induction false} BitsOfFromBits(x: seq<bool>)
    ensures Bits(FromBits(x), |x|) == x
  {
    if x != [] {
      BitsOfFromBits(x[1..]);
      assert FromBits(x) / 2 == FromBits(x[1..]);
    }
  }

  lemma {:induction false} FromBitsOfBits(v: nat, n: nat)
    requires v < Pow2(n)
    ensures FromBits(Bits(v, n)) == v
  {
    if n > 0 {
      FromBitsOfBits(v / 2, n - 1);
      assert Bits(v, n)[1..] == Bits(v / 2, n - 1);
    }
  }

  /** `(b & (1 << j)) != 0` for a byte `b` and `0 <= j < 8`. */
  predicate TestBit(b: Byte, j: int)
    requires 0 <= j < 8
  {
    Bits(b, 8)[j]
  }

  /** `b | (1 << j)` for a byte `b` and `0 <= j < 8`. */
  function SetBit(b: Byte, j: int): Byte
    requires 0 <= j < 8
  {
    assert Pow2(8) == 256;
    FromBits(Bits(b, 8)[j := true])
  }

  /** Setting bit `j` sets it and changes no other bit. */
  lemma {:induction false} SetBitMeans(b: Byte, j: int)
    requires 0 <= j < 8
    ensures TestBit(SetBit(b, j), j)
    ensures forall i :: 0 <= i < 8 && i != j ==> TestBit(SetBit(b, j), i) == TestBit(b, i)
  {
    BitsOfFromBits(Bits(b, 8)[j := true]);
  }

  // ---------------------------------------------------------------------------
  // Java int arithmetic of the probe sequence
  // ---------------------------------------------------------------------------

  /** Java's `a % b` for `b > 0`: truncating, so the sign follows `a`. */
  function JavaRem(a: int, b: int): (r: int)
    requires b > 0
    ensures -b < r < b && (a >= 0 ==> r >= 0)
  {
    if a >= 0 then a % b else -((-a) % b)
  }

  /**
   * `(h >> 17) | (h << 15)` on a Java int.  The low 15 bits of the result are
   * bits 17..31 of `h`; above them a non-negative `h` contributes its low 17
   * bits (shifted up by 15), while a negative `h` sign-extends `h >> 17` so
   * that all bits from 15 upwards are set.
   */
  function Delta(h: int): (r: int)
    ensures IsInt32(r)
  {
    var u := h % 0x1_0000_0000;
    var high := u / 0x2_0000;
    if u < 0x8000_0000 then
      Wrap32Identity((u % 0x2_0000) * 0x8000 + high);
      Wrap32((u % 0x2_0000) * 0x8000 + high)
    else
      high - 0x8000
  }

  /** The next hash of the probe sequence: `h += delta`. */
  function NextHash(h: int): (r: int)
    ensures IsInt32(r)
  {
    Wrap32Identity(h + Delta(h));
    Wrap32(h + Delta(h))
  }

  /** `(h % bitLen + bitLen) % bitLen`, the inner sum in 32-bit arithmetic. */
  function ProbeIndex(h: int, bitLen: int): int
    requires bitLen > 0
  {
    JavaRem(Wrap32(JavaRem(h, bitLen) + bitLen), bitLen)
  }

  /** The probe index is a bit position whenever the inner sum cannot overflow. */
  lemma {:induction false} ProbeIndexInRange(h: int, bitLen: int)
    requires 0 < bitLen <= 0x4000_0000
    ensures 0 <= ProbeIndex(h, bitLen) < bitLen
  {
    Wrap32Identity(JavaRem(h, bitLen) + bitLen);
  }

  /** Java's `idx / 8`: truncating, so `-7..-1` give 0 and only `idx <= -8` gives a negative byte index. */
  function JavaDiv8(idx: int): (r: int)
    ensures idx >= 0 ==> r == idx / 8
    ensures -8 < idx < 0 ==> r == 0
    ensures idx <= -8 ==> r < 0
  {
    if idx >= 0 then idx / 8 else -((-idx) / 8)
  }

  /**
   * The distance of the shift `1 << (idx % 8)`: Java's `idx % 8` lies in
   * `-7..7`, and a shift of an int uses only its low five bits, so a negative
   * remainder shifts by `32 + idx % 8`.
   */
  function ShiftOf(idx: int): (s: int)
    ensures 0 <= s < 32
    ensures idx >= 0 ==> s == idx % 8
    ensures -8 < idx < 0 ==> s == 32 + idx
  {
    JavaRem(idx, 8) % 32
  }

  /**
   * `(b & (1 << s)) != 0` with the byte `b` widened to an int: every bit from
   * 7 upwards of the widened byte is its sign bit.
   */
  predicate TestShifted(b: Byte, s: int)
    requires 0 <= s < 32
  {
    TestBit(b, if s < 8 then s else 7)
  }

  /** `b |= 1 << s` on a byte: the result is narrowed back, so a bit above 7 is lost. */
  function OrShifted(b: Byte, s: int): Byte
    requires 0 <= s < 32
  {
    if s < 8 then SetBit(b, s) else b
  }

  /**
   * `bitLen` as `generate` computes it for `n` keys: `bitsPerKey * n` rounded
   * up to a multiple of 8 by `((x + 7) >> 3) << 3`, and at least 64.  Every
   * step is Java int arithmetic.
   */
  function BitLen(bitsPerKey: int, n: nat): (r: int)
    ensures 64 <= r <= INT32_MAX && r % 8 == 0
  {
    var product := Wrap32(bitsPerKey * n);
    Wrap32Identity(bitsPerKey * n);
    Wrap32Identity(product + 7);
    var rounded := Wrap32(product + 7) / 8 * 8;
    if rounded > 64 then rounded else 64
  }

  /** Without overflow, the filter has room for `bitsPerKey` bits per key. */
  lemma {:induction false} BitLenCovers(bitsPerKey: int, n: nat)
    requires 0 <= bitsPerKey * n <= INT32_MAX - 7
    ensures BitLen(bitsPerKey, n) >= bitsPerKey * n
    ensures BitLen(bitsPerKey, n) < bitsPerKey * n + 8 || BitLen(bitsPerKey, n) == 64
  {
    Wrap32Identity(bitsPerKey * n);
    Wrap32Identity(bitsPerKey * n + 7);
  }

  // ---------------------------------------------------------------------------
  // generate and mayContains as functions
  // ---------------------------------------------------------------------------

  /** The number of times `for (int i = 0; i < k; i++)` runs. */
  function Rounds(k: int): nat
  {
    if k > 0 then k else 0
  }

  /**
   * The inner loop of `generate` for one key: `count` more probes from hash
   * `h`.  A probe index is negative only when the inner sum of the index
   * overflows (`bitLen` beyond 2^30); then an index in `-7..-1` ORs a bit
   * above 7 into byte 0, which the narrowing drops, and an index at or below
   * -8 fails as an index error.
   */
  function AddProbes(bits: seq<Byte>, h: int, count: nat, bitLen: int): (r: Result<seq<Byte>>)
    requires 0 < bitLen <= 8 * |bits|
    ensures r.Ok? ==> |r.value| == |bits|
    ensures r.Err? ==> r.error == IndexOutOfBounds
    decreases count
  {
    if count == 0 then Ok(bits)
    else
      var idx := ProbeIndex(h, bitLen);
      var q := JavaDiv8(idx);
      if q < 0 then Err(IndexOutOfBounds)
      else AddProbes(bits[q := OrShifted(bits[q], ShiftOf(idx))], NextHash(h), count - 1, bitLen)
  }

  /** The outer loop of `generate`: every key's probes, in the order of `keys`. */
  function AddKeys(bits: seq<Byte>, keys: seq<seq<Byte>>, k: int, bitLen: int): (r: Result<seq<Byte>>)
    requires 0 < bitLen <= 8 * |bits|
    ensures r.Ok? ==> |r.value| == |bits|
    ensures r.Err? ==> r.error == IndexOutOfBounds
  {
    if keys == [] then Ok(bits)
    else
      var before :- AddKeys(bits, keys[..|keys| - 1], k, bitLen);
      AddProbes(before, HashPrefix(keys[|keys| - 1]), Rounds(k), bitLen)
  }

  /** `generate(keys)`: the new `bitLen` and the filter bytes. */
  function GenerateBits(bitsPerKey: int, k: int, keys: seq<seq<Byte>>): (r: Result<(int, seq<Byte>)>)
    ensures r.Ok? ==> r.value.0 == BitLen(bitsPerKey, |keys|) && |r.value.1| * 8 == r.value.0
    ensures r.Err? ==> r.error == IndexOutOfBounds
  {
    var bitLen := BitLen(bitsPerKey, |keys|);
    var bits :- AddKeys(seq(bitLen / 8, _ => 0), keys, k, bitLen);
    Ok((bitLen, bits))
  }

  /**
   * The probe loop of `mayContains`: `count` more probes from hash `h`.
   * A zero `bitLen` fails on `h % bitLen`; a probe outside `bits` fails as an
   * index error; the first clear bit answers false.  An index in `-7..-1`
   * tests a bit above 7 of the widened byte 0, that is its sign bit.
   */
  function Probe(bits: seq<Byte>, bitLen: int, h: int, count: nat): (r: Result<bool>)
    requires bitLen >= 0
    decreases count
  {
    if count == 0 then Ok(true)
    else if bitLen == 0 then Err(DivideByZero)
    else
      var idx := ProbeIndex(h, bitLen);
      var q := JavaDiv8(idx);
      if q < 0 || q >= |bits| then Err(IndexOutOfBounds)
      else if !TestShifted(bits[q], ShiftOf(idx)) then Ok(false)
      else Probe(bits, bitLen, NextHash(h), count - 1)
  }

  /** `mayContains(key)` on a filter of `bitLen` bits held in `bits`. */
  function MayContain(bits: seq<Byte>, bitLen: int, k: int, key: seq<Byte>): Result<bool>
    requires bitLen >= 0
  {
    Probe(bits, bitLen, HashPrefix(key), Rounds(k))
  }

  // ---------------------------------------------------------------------------
  // No false negatives
  // ---------------------------------------------------------------------------

  /** Every bit set in `a` is set in `b`. */
  predicate Covers(a: seq<Byte>, b: seq<Byte>)
  {
    |a| == |b| && forall i, j :: 0 <= i < |a| && 0 <= j < 8 && TestBit(a[i], j) ==> TestBit(b[i], j)
  }

  lemma {:induction false} CoversTransitive(a: seq<Byte>, b: seq<Byte>, c: seq<Byte>)
    requires Covers(a, b) && Covers(b, c)
    ensures Covers(a, c)
  {
  }

  /** One probe of `generate` only adds bits, whether or not the narrowing drops its bit. */
  lemma {:induction false} OrCovers(bits: seq<Byte>, q: int, s: int)
    requires 0 <= q < |bits| && 0 <= s < 32
    ensures Covers(bits, bits[q := OrShifted(bits[q], s)])
  {
    if s < 8 {
      SetBitMeans(bits[q], s);
    }
  }

  lemma {:induction false} AddProbesCovers(bits: seq<Byte>, h: int, count: nat, bitLen: int)
    requires 0 < bitLen <= 8 * |bits|
    requires AddProbes(bits, h, count, bitLen).Ok?
    ensures Covers(bits, AddProbes(bits, h, count, bitLen).value)
    decreases count
  {
    if count > 0 {
      var idx := ProbeIndex(h, bitLen);
      var q := JavaDiv8(idx);
      var next := bits[q := OrShifted(bits[q], ShiftOf(idx))];
      OrCovers(bits, q, ShiftOf(idx));
      AddProbesCovers(next, NextHash(h), count - 1, bitLen);
      CoversTransitive(bits, next, AddProbes(bits, h, count, bitLen).value);
    }
  }

  /** A key found in one filter is found in any filter with at least its bits. */
  lemma {:induction false} ProbeCovered(a: seq<Byte>, b: seq<Byte>, bitLen: int, h: int, count: nat)
    requires bitLen >= 0 && Covers(a, b) && Probe(a, bitLen, h, count) == Ok(true)
    ensures Probe(b, bitLen, h, count) == Ok(true)
    decreases count
  {
    if count > 0 {
      ProbeCovered(a, b, bitLen, NextHash(h), count - 1);
    }
  }

  /**
   * After a key's probes are added, probing for that key finds every bit set,
   * as long as no probe index overflows (`bitLen` at most 2^30).
   */
  lemma {:induction false} AddProbesFound(bits: seq<Byte>, h: int, count: nat, bitLen: int)
    requires 0 < bitLen <= 0x4000_0000 && bitLen <= 8 * |bits|
    ensures AddProbes(bits, h, count, bitLen).Ok?
    ensures Probe(AddProbes(bits, h, count, bitLen).value, bitLen, h, count) == Ok(true)
  {
    AddProbesSucceeds(bits, h, count, bitLen);
    AddProbesFoundIn(bits, h, count, bitLen, AddProbes(bits, h, count, bitLen).value);
  }

  /** `AddProbesFound` with the filled bits named. */
  lemma {:induction false} AddProbesFoundIn(bits: seq<Byte>, h: int, count: nat, bitLen: int, r: seq<Byte>)
    requires 0 < bitLen <= 0x4000_0000 && bitLen <= 8 * |bits|
    requires AddProbes(bits, h, count, bitLen) == Ok(r)
    ensures Probe(r, bitLen, h, count) == Ok(true)
    decreases count
  {
    if count > 0 {
      var idx := ProbeIndex(h, bitLen);
      var q, j := idx / 8, idx % 8;
      var next := AddProbesStep(bits, h, count, bitLen, r);
      AddProbesFoundIn(next, NextHash(h), count - 1, bitLen, r);
      AddProbesCovers(next, NextHash(h), count - 1, bitLen);
      SetBitMeans(bits[q], j);
      CoversBit(next, r, q, j);
      ProbeStep(r, bitLen, h, count);
    }
  }

  /** One round of the inner loop of `generate` without overflow: the probe's bit is set, then the next hash goes on. */
  lemma {:induction false} AddProbesStep(bits: seq<Byte>, h: int, count: nat, bitLen: int, r: seq<Byte>) returns (next: seq<Byte>)
    requires 0 < bitLen <= 0x4000_0000 && bitLen <= 8 * |bits| && count > 0
    requires AddProbes(bits, h, count, bitLen) == Ok(r)
    ensures var idx := ProbeIndex(h, bitLen);
      0 <= idx < 8 * |bits| && 0 <= idx / 8 < |bits| && 0 <= idx % 8 < 8
      && next == bits[idx / 8 := SetBit(bits[idx / 8], idx % 8)]
    ensures |next| == |bits| && AddProbes(next, NextHash(h), count - 1, bitLen) == Ok(r)
  {
    var idx := ProbeIndex(h, bitLen);
    ProbeIndexInRange(h, bitLen);
    next := bits[idx / 8 := SetBit(bits[idx / 8], idx % 8)];
  }

  /** A bit set in `a` is set in any `b` that covers it. */
  lemma {:induction false} CoversBit(a: seq<Byte>, b: seq<Byte>, q: int, j: int)
    requires Covers(a, b) && 0 <= q < |a| && 0 <= j < 8 && TestBit(a[q], j)
    ensures TestBit(b[q], j)
  {
  }

  /** A probe whose bit is set goes on with the next hash. */
  lemma {:induction false} ProbeStep(bits: seq<Byte>, bitLen: int, h: int, count: nat)
    requires bitLen > 0 && count > 0
    requires var idx := ProbeIndex(h, bitLen); 0 <= idx && idx / 8 < |bits| && TestBit(bits[idx / 8], idx % 8)
    ensures Probe(bits, bitLen, h, count) == Probe(bits, bitLen, NextHash(h), count - 1)
  {
  }

  lemma {:induction false} AddKeysCovers(bits: seq<Byte>, keys: seq<seq<Byte>>, k: int, bitLen: int)
    requires 0 < bitLen <= 8 * |bits|
    requires AddKeys(bits, keys, k, bitLen).Ok?
    ensures Covers(bits, AddKeys(bits, keys, k, bitLen).value)
  {
    if keys != [] {
      var before := AddKeys(bits, keys[..|keys| - 1], k, bitLen).value;
      AddKeysCovers(bits, keys[..|keys| - 1], k, bitLen);
      AddProbesCovers(before, HashPrefix(keys[|keys| - 1]), Rounds(k), bitLen);
      CoversTransitive(bits, before, AddKeys(bits, keys, k, bitLen).value);
    }
  }

  lemma {:induction false} AddKeysFound(bits: seq<Byte>, keys: seq<seq<Byte>>, k: int, bitLen: int, i: nat)
    requires 0 < bitLen <= 0x4000_0000 && bitLen <= 8 * |bits| && i < |keys|
    ensures AddKeys(bits, keys, k, bitLen).Ok?
    ensures Probe(AddKeys(bits, keys, k, bitLen).value, bitLen, HashPrefix(keys[i]), Rounds(k)) == Ok(true)
  {
    var init := keys[..|keys| - 1];
    AddKeysSucceeds(bits, keys, k, bitLen);
    AddKeysSucceeds(bits, init, k, bitLen);
    var before := AddKeys(bits, init, k, bitLen).value;
    var after := AddKeys(bits, keys, k, bitLen).value;
    var last := HashPrefix(keys[|keys| - 1]);
    if i == |keys| - 1 {
      AddProbesFound(before, last, Rounds(k), bitLen);
    } else {
      AddKeysFound(bits, init, k, bitLen, i);
      AddProbesCovers(before, last, Rounds(k), bitLen);
      ProbeCovered(before, after, bitLen, HashPrefix(init[i]), Rounds(k));
    }
  }

  /**
   * No false negatives: a filter generated over `keys` may contain every one
   * of them, as long as its bit length is at most 2^30 (see
   * `WrappedProbeMisses` for what happens beyond).
   */
  lemma {:induction false} NoFalseNegatives(bitsPerKey: int, k: int, keys: seq<seq<Byte>>, key: seq<Byte>)
    requires BitLen(bitsPerKey, |keys|) <= 0x4000_0000 && key in keys
    ensures GenerateBits(bitsPerKey, k, keys).Ok?
    ensures var (bitLen, bits) := GenerateBits(bitsPerKey, k, keys).value;
            MayContain(bits, bitLen, k, key) == Ok(true)
  {
    var bitLen := BitLen(bitsPerKey, |keys|);
    var i :| 0 <= i < |keys| && keys[i] == key;
    AddKeysFound(seq(bitLen / 8, _ => 0), keys, k, bitLen, i);
  }

  /**
   * Beyond 2^30 bits the property fails: with `bitLen` = 2^31 - 8 the hash 13
   * probes index -3, which `generate` turns into a dropped bit above 7 of
   * byte 0, while `mayContains` tests the sign bit of that byte, still clear.
   */
  lemma {:induction false} WrappedProbeMisses()
    ensures var bitLen, bits := 0x7FFF_FFF8, seq(0x0FFF_FFFF, _ => 0);
      ProbeIndex(13, bitLen) == -3
      && AddProbes(bits, 13, 1, bitLen) == Ok(bits)
      && Probe(AddProbes(bits, 13, 1, bitLen).value, bitLen, 13, 1) == Ok(false)
  {
    var bitLen, bits := 0x7FFF_FFF8, seq(0x0FFF_FFFF, _ => 0);
    assert JavaRem(13, bitLen) == 13;
    assert Wrap32(13 + bitLen) == -0x7FFF_FFFB;
    assert ProbeIndex(13, bitLen) == -3;
    assert bits[0 := OrShifted(bits[0], 29)] == bits;
    assert Bits(0, 8)[7] == false;
  }

  lemma {:induction false} AddProbesSucceeds(bits: seq<Byte>, h: int, count: nat, bitLen: int)
    requires 0 < bitLen <= 0x4000_0000 && bitLen <= 8 * |bits|
    ensures AddProbes(bits, h, count, bitLen).Ok?
    decreases count
  {
    if count > 0 {
      var idx := ProbeIndex(h, bitLen);
      ProbeIndexInRange(h, bitLen);
      AddProbesSucceeds(bits[idx / 8 := SetBit(bits[idx / 8], idx % 8)], NextHash(h), count - 1, bitLen);
    }
  }

  lemma {:induction false} AddKeysSucceeds(bits: seq<Byte>, keys: seq<seq<Byte>>, k: int, bitLen: int)
    requires 0 < bitLen <= 0x4000_0000 && bitLen <= 8 * |bits|
    ensures AddKeys(bits, keys, k, bitLen).Ok?
  {
    if keys != [] {
      AddKeysSucceeds(bits, keys[..|keys| - 1], k, bitLen);
      var before := AddKeys(bits, keys[..|keys| - 1], k, bitLen).value;
      AddProbesSucceeds(before, HashPrefix(keys[|keys| - 1]), Rounds(k), bitLen);
    }
  }

  /** `generate` only fails when its bit length is beyond 2^30, where the index sum can overflow. */
  lemma {:induction false} GenerateSucceeds(bitsPerKey: int, k: int, keys: seq<seq<Byte>>)
    requires BitLen(bitsPerKey, |keys|) <= 0x4000_0000
    ensures GenerateBits(bitsPerKey, k, keys).Ok?
  {
    var bitLen := BitLen(bitsPerKey, |keys|);
    AddKeysSucceeds(seq(bitLen / 8, _ => 0), keys, k, bitLen);
  }

  /** With the block filter's parameters, up to 2^28 keys keep the bit length within 2^30. */
  lemma {:induction false} BlockFilterFits(n: nat)
    requires n <= 0x1000_0000
    ensures BitLen(BLOOM_FILTER_HASH_COUNT, n) <= 0x4000_0000
  {
    BitLenCovers(BLOOM_FILTER_HASH_COUNT, n);
  }

  // ---------------------------------------------------------------------------
  // The class
  // ---------------------------------------------------------------------------

  class BloomFilter {
    var k: int
    var bitsPerKey: int
    var bitLen: int
    var result: array?<Byte>

    /** A filter has a bit length that is not negative, and none before it has bytes. */
    predicate Valid()
      reads this
    {
      bitLen >= 0 && (result == null ==> bitLen == 0)
    }

    /** The bytes of the filter, empty before `generate` or `setResult`. */
    function Bytes(): seq<Byte>
      reads this, result
    {
      if result == null then [] else result[..]
    }

    /** The constructor stores the hash count in both fields; the bits-per-key argument is unused. */
    constructor(hashCount: int, bitsPerKeyArg: int)
      ensures Valid()
      ensures k == hashCount && bitsPerKey == hashCount
      ensures bitLen == 0 && result == null
    {
      k := hashCount;
      bitsPerKey := hashCount;
      bitLen := 0;
      result := null;
    }

    /** `setResult(b)`: adopts `b` (not a copy) as the filter bytes. */
    method SetResult(b: array<Byte>)
      modifies this
      ensures Valid()
      ensures result == b && bitLen == 8 * b.Length
      ensures k == old(k) && bitsPerKey == old(bitsPerKey)
    {
      result := b;
      bitLen := 8 * b.Length;
    }

    /** `generate(keys)`: a fresh filter array, which also becomes this filter's bytes. */
    method Generate(keys: seq<seq<Byte>>) returns (r: Result<array<Byte>>)
      modifies this
      ensures Valid()
      ensures k == old(k) && bitsPerKey == old(bitsPerKey)
      ensures bitLen == BitLen(bitsPerKey, |keys|) && result != null && fresh(result)
      ensures r.Err? <==> GenerateBits(bitsPerKey, k, keys).Err?
      ensures r.Err? ==> r.error == IndexOutOfBounds
      ensures r.Ok? ==> r.value == result && GenerateBits(bitsPerKey, k, keys) == Ok((bitLen, result[..]))
    {
      var n := BitLen(bitsPerKey, |keys|);
      var a := new Byte[n / 8](_ => 0);
      assert a[..] == seq(n / 8, _ => 0);
      bitLen := n;
      result := a;
      var ok := AddKeysInto(a, keys, k, n);
      if ok {
        r := Ok(a);
      } else {
        r := Err(IndexOutOfBounds);
      }
    }

    /** `mayContains(key)`; it changes nothing. */
    method MayContains(key: seq<Byte>) returns (r: Result<bool>)
      requires Valid()
      ensures r == MayContain(Bytes(), bitLen, k, key)
    {
      var h := HashPrefix(key);
      ghost var h0 := h;
      for i := 0 to Rounds(k)
        invariant Probe(Bytes(), bitLen, h, Rounds(k) - i) == Probe(Bytes(), bitLen, h0, Rounds(k))
      {
        if bitLen == 0 {
          return Err(DivideByZero);
        }
        var idx := ProbeIndex(h, bitLen);
        var q := JavaDiv8(idx);
        if q < 0 || q >= result.Length {
          return Err(IndexOutOfBounds);
        }
        if !TestShifted(result[q], ShiftOf(idx)) {
          return Ok(false);
        }
        h := NextHash(h);
      }
      r := Ok(true);
    }
  }

  /** The outer loop of `generate`, in place on `bits`; false when a probe index is out of range. */
  method AddKeysInto(bits: array<Byte>, keys: seq<seq<Byte>>, k: int, bitLen: int) returns (ok: bool)
    requires 0 < bitLen <= 8 * bits.Length
    modifies bits
    ensures ok <==> AddKeys(old(bits[..]), keys, k, bitLen).Ok?
    ensures ok ==> AddKeys(old(bits[..]), keys, k, bitLen) == Ok(bits[..])
  {
    ghost var start := bits[..];
    for i := 0 to |keys|
      invariant AddKeys(start, keys[..i], k, bitLen) == Ok(bits[..])
    {
      assert keys[..i + 1][..i] == keys[..i];
      var h := HashPrefix(keys[i]);
      ok := AddProbesInto(bits, h, Rounds(k), bitLen);
      if !ok {
        AddKeysErrorStays(start, keys, i + 1, k, bitLen);
        return;
      }
    }
    assert keys[..|keys|] == keys;
    ok := true;
  }

  /** The inner loop of `generate` for one key, in place on `bits`. */
  method AddProbesInto(bits: array<Byte>, h0: int, count: nat, bitLen: int) returns (ok: bool)
    requires 0 < bitLen <= 8 * bits.Length
    modifies bits
    ensures ok <==> AddProbes(old(bits[..]), h0, count, bitLen).Ok?
    ensures ok ==> AddProbes(old(bits[..]), h0, count, bitLen) == Ok(bits[..])
  {
    var h := h0;
    for j := 0 to count
      invariant AddProbes(bits[..], h, count - j, bitLen) == AddProbes(old(bits[..]), h0, count, bitLen)
    {
      var idx := ProbeIndex(h, bitLen);
      var q := JavaDiv8(idx);
      if q < 0 {
        return false;
      }
      bits[q] := OrShifted(bits[q], ShiftOf(idx));
      h := NextHash(h);
    }
    ok := true;
  }

  /** Once the keys up to `i` fail, all keys fail. */
  lemma {:induction false} AddKeysErrorStays(bits: seq<Byte>, keys: seq<seq<Byte>>, i: nat, k: int, bitLen: int)
    requires 0 < bitLen <= 8 * |bits| && i <= |keys|
    requires AddKeys(bits, keys[..i], k, bitLen).Err?
    ensures AddKeys(bits, keys, k, bitLen).Err?
    decreases |keys| - i
  {
    if i < |keys| {
      assert keys[..i + 1][..i] == keys[..i];
      AddKeysErrorStays(bits, keys, i + 1, k, bitLen);
    } else {
      assert keys[..i] == keys;
    }
  }
}
