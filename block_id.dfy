/**
 * The block cache's key: a disk file (which equals another exactly when the
 * file names agree) paired with a block meta.  Also the Java hash codes that
 * the cache's hash map consults before it compares keys with `equals`.
 */
module BlockIds {
  import opened ByteUtils
  import opened KeyValues
  import opened BlockMetas

  /** `BlockId(diskFile, meta)`; the disk file enters equality and hashing only by its name. */
  datatype BlockId = BlockId(fileName: string, meta: BlockMeta)

  /** `BlockId.equals`: `DiskFile.equals` on the names and `BlockMeta.equals` on the metas. */
  predicate BlockIdEquals(a: BlockId, b: BlockId)
  {
    a.fileName == b.fileName && MetaEquals(a.meta, b.meta)
  }

  /** Equal ids name the same file and a meta that differs at most in the last record's value. */
  lemma {:induction false} BlockIdEqualsMeans(a: BlockId, b: BlockId)
    ensures BlockIdEquals(a, b) <==>
      a.fileName == b.fileName && a.meta.blockOffset == b.meta.blockOffset
      && a.meta.blockSize == b.meta.blockSize && a.meta.bfBytes == b.meta.bfBytes
      && a.meta.lastKv.key == b.meta.lastKv.key
      && a.meta.lastKv.sequenceId == b.meta.lastKv.sequenceId
      && a.meta.lastKv.op == b.meta.lastKv.op
  {
    MetaEqualsMeans(a.meta, b.meta);
  }

  /** `equals` is an equivalence: reflexive, symmetric and transitive. */
  lemma {:induction false} BlockIdEqualsEquivalence(a: BlockId, b: BlockId, c: BlockId)
    ensures BlockIdEquals(a, a)
    ensures BlockIdEquals(a, b) ==> BlockIdEquals(b, a)
    ensures BlockIdEquals(a, b) && BlockIdEquals(b, c) ==> BlockIdEquals(a, c)
  {
    BlockIdEqualsMeans(a, a);
    BlockIdEqualsMeans(a, b);
    BlockIdEqualsMeans(b, a);
    BlockIdEqualsMeans(b, c);
    BlockIdEqualsMeans(a, c);
  }

  // ---------------------------------------------------------------------------
  // Java hash codes (32-bit wrap-around written out)
  // ---------------------------------------------------------------------------

  /** `Arrays.hashCode(byte[])` of a non-null array: `31 * h + b` over signed bytes from 1. */
  function BytesHash(s: seq<Byte>): int
  {
    if s == [] then 1 else Wrap32(31 * BytesHash(s[..|s| - 1]) + SignedByte(s[|s| - 1]))
  }

  /** `String.hashCode()`: `31 * h + c` over the characters from 0. */
  function StringHash(s: string): int
  {
    if s == [] then 0 else Wrap32(31 * StringHash(s[..|s| - 1]) + s[|s| - 1] as int)
  }

  /** `Objects.hash(x1, ..., xn)` given the elements' hash codes: `31 * h + hi` from 1. */
  function ObjectsHash(hs: seq<int>): int
  {
    if hs == [] then 1 else Wrap32(31 * ObjectsHash(hs[..|hs| - 1]) + hs[|hs| - 1])
  }

  /** The low `n` bits of `a XOR b` for non-negative `a` and `b`. */
  function Xor(a: nat, b: nat, n: nat): nat
  {
    if n == 0 then 0 else 2 * Xor(a / 2, b / 2, n - 1) + (if a % 2 == b % 2 then 0 else 1)
  }

  /** `Long.hashCode(v)`: `(int) (v ^ (v >>> 32))`, the XOR of the two 32-bit halves. */
  function LongHash(v: int): int
  {
    var u := v % 0x1_0000_0000_0000_0000;
    Wrap32(Xor(u % 0x1_0000_0000, u / 0x1_0000_0000, 32))
  }

  /** `DiskFile.hashCode()`: `Objects.hash(fileName)`. */
  function DiskFileHash(fileName: string): int
  {
    ObjectsHash([StringHash(fileName)])
  }

  lemma {:induction false} XorZero(n: nat)
    ensures Xor(0, 0, n) == 0
  {
    if n > 0 {
      XorZero(n - 1);
    }
  }

  /**
   * `BlockMeta.hashCode()` as written.  `KeyValue` does not override
   * `hashCode`, so the last record contributes its object identity hash,
   * which no value of the record determines: it is the parameter `kvIdentity`.
   */
  function MetaHashAsWritten(m: BlockMeta, kvIdentity: int): int
  {
    Wrap32(31 * ObjectsHash([kvIdentity, LongHash(m.blockOffset), LongHash(m.blockSize)])
      + BytesHash(m.bfBytes))
  }

  /** `BlockId.hashCode()` as written, over the identity hash of the meta's last record. */
  function BlockIdHashAsWritten(id: BlockId, kvIdentity: int): int
  {
    ObjectsHash([DiskFileHash(id.fileName), MetaHashAsWritten(id.meta, kvIdentity)])
  }

  /**
   * For an id of the empty file name with offset and size hashing to 0 and an empty
   * filter, the hash as written moves with the identity hash of the record
   * object and with nothing else.
   */
  lemma {:induction false} DummyIdHash(id: BlockId, kvIdentity: int)
    requires id.fileName == [] && LongHash(id.meta.blockOffset) == 0 && LongHash(id.meta.blockSize) == 0
    requires id.meta.bfBytes == [] && 0 <= kvIdentity <= 1000
    ensures BlockIdHashAsWritten(id, kvIdentity) == 925444 + 29791 * kvIdentity
  {
    var d := DiskFileHash(id.fileName);
    var mh := MetaHashAsWritten(id.meta, kvIdentity);
    EmptyNameHash(id.fileName);
    DummyMetaHash(id.meta, kvIdentity);
    assert [] + [d] == [d] && [d] + [mh] == [d, mh];
    ObjectsHashSnoc([], d);
    SmallStep(1, d);
    ObjectsHashSnoc([d], mh);
    SmallStep(62, mh);
  }

  lemma {:induction false} EmptyNameHash(fileName: string)
    requires fileName == []
    ensures DiskFileHash(fileName) == 31
  {
    var z := StringHash(fileName);
    assert [] + [z] == [z];
    ObjectsHashSnoc([], z);
    SmallStep(1, 0);
  }

  lemma {:induction false} DummyMetaHash(m: BlockMeta, k: int)
    requires LongHash(m.blockOffset) == 0 && LongHash(m.blockSize) == 0 && m.bfBytes == [] && 0 <= k <= 1000
    ensures MetaHashAsWritten(m, k) == 31 * (29791 + 961 * k) + 1
  {
    var h := ObjectsHash([k, LongHash(m.blockOffset), LongHash(m.blockSize)]);
    var b := BytesHash(m.bfBytes);
    assert h == 29791 + 961 * k by {
      assert [k, LongHash(m.blockOffset), LongHash(m.blockSize)] == [k, 0, 0];
      HashOfIdentityAndZeros(k);
    }
    assert b == 1;
    SmallStep(h, b);
    assert MetaHashAsWritten(m, k) == Wrap32(31 * h + b);
  }

  lemma {:induction false} LongHashZero(v: int)
    requires v == 0
    ensures LongHash(v) == 0
  {
    XorZero(32);
    Wrap32Identity(0);
  }

  lemma {:induction false} HashOfIdentityAndZeros(k: int)
    requires 0 <= k <= 1000
    ensures ObjectsHash([k, 0, 0]) == 29791 + 961 * k
  {
    assert [] + [k] == [k] && [k] + [0] == [k, 0] && [k, 0] + [0] == [k, 0, 0];
    ObjectsHashSnoc([], k);
    SmallStep(1, k);
    ObjectsHashSnoc([k], 0);
    SmallStep(31 + k, 0);
    ObjectsHashSnoc([k, 0], 0);
    SmallStep(961 + 31 * k, 0);
  }

  /** `Objects.hash` with one more element. */
  lemma {:induction false} ObjectsHashSnoc(hs: seq<int>, x: int)
    ensures ObjectsHash(hs + [x]) == Wrap32(31 * ObjectsHash(hs) + x)
  {
    assert (hs + [x])[..|hs|] == hs;
  }

  /** A hash step on small non-negative values does not wrap. */
  lemma {:induction false} SmallStep(h: int, x: int)
    requires 0 <= h <= 1_000_000 && 0 <= x <= 100_000_000
    ensures Wrap32(31 * h + x) == 31 * h + x
  {
    Wrap32Identity(31 * h + x);
  }

  /**
   * Equal ids can hash differently as written: one id, whose last record
   * is held by two distinct objects with identity hashes 0 and 1, is equal
   * to itself yet gets two different hash codes.
   */
  lemma {:induction false} HashAsWrittenBreaksEquals(id: BlockId)
    requires id == BlockId([], CreateSeekDummy(KeyValue([], [], Put, 0)))
    ensures BlockIdEquals(id, id) && BlockIdHashAsWritten(id, 0) != BlockIdHashAsWritten(id, 1)
  {
    LongHashZero(id.meta.blockOffset);
    LongHashZero(id.meta.blockSize);
    DummyIdHash(id, 0);
    DummyIdHash(id, 1);
    BlockIdEqualsEquivalence(id, id, id);
  }

  /** A record hash that agrees with `KeyValue.equals`: over key, sequence id and op only. */
  function KvHash(kv: KeyValue): int
  {
    ObjectsHash([BytesHash(kv.key), LongHash(kv.sequenceId), Code(kv.op)])
  }

  /** `BlockMeta.hashCode()` with the record's identity hash replaced by `KvHash`. */
  function MetaHash(m: BlockMeta): int
  {
    Wrap32(31 * ObjectsHash([KvHash(m.lastKv), LongHash(m.blockOffset), LongHash(m.blockSize)])
      + BytesHash(m.bfBytes))
  }

  /** `BlockId.hashCode()` over the corrected meta hash. */
  function BlockIdHash(id: BlockId): int
  {
    ObjectsHash([DiskFileHash(id.fileName), MetaHash(id.meta)])
  }

  /** With the corrected hash, equal ids hash alike, as a hash map needs. */
  lemma {:induction false} HashRespectsEquals(a: BlockId, b: BlockId)
    requires BlockIdEquals(a, b)
    ensures BlockIdHash(a) == BlockIdHash(b)
  {
    BlockIdEqualsMeans(a, b);
  }
}
