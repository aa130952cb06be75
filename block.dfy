/**
 * Data blocks: the writer that buffers records and serialises them as
 *
 *   count (4) | record ... record | checksum (4)
 *
 * where the checksum is the CRC-32 of the record bytes narrowed to a Java
 * int, the reader that parses such a block back, and the reader's cursor,
 * which skips records the filter's snapshot version cannot see and seeks by
 * binary search.
 */
module Blocks {
  import opened Wrappers
  import opened ByteUtils
  import opened KeyValues
  import opened Crc32
  import opened BloomFilters
  import opened KeyValueFilters

  const KV_SIZE_LEN: int := 4
  const CHECKSUM_LEN: int := 4

  // ---------------------------------------------------------------------------
  // The block format
  // ---------------------------------------------------------------------------

  /** Every record is one the Java object can hold and serialise. */
  predicate AllValid(kvs: seq<KeyValue>)
  {
    forall i | 0 <= i < |kvs| :: KeyValues.Valid(kvs[i])
  }

  /** The sum of the records' serialised sizes. */
  function TotalSize(kvs: seq<KeyValue>): nat
  {
    if kvs == [] then 0 else TotalSize(kvs[..|kvs| - 1]) + SerializedSize(kvs[|kvs| - 1])
  }

  /** The records' `toBytes()` one after the other. */
  function Records(kvs: seq<KeyValue>): seq<Byte>
  {
    if kvs == [] then [] else Records(kvs[..|kvs| - 1]) + Serialize(kvs[|kvs| - 1])
  }

  /** The keys of the records, in order. */
  function Keys(kvs: seq<KeyValue>): seq<seq<Byte>>
  {
    seq(|kvs|, i requires 0 <= i < |kvs| => kvs[i].key)
  }

  /** `(int) crc32.getValue()` after the records' bytes have been fed in. */
  function Checksum(kvs: seq<KeyValue>): int
  {
    Wrap32(Crc(Records(kvs)))
  }

  /** The bytes of a serialised block. */
  function BlockBytes(kvs: seq<KeyValue>): seq<Byte>
  {
    EncodeInt32(|kvs|) + Records(kvs) + EncodeInt32(Checksum(kvs))
  }

  /** The record bytes are as long as the sizes add up to, and every record takes at least 17 bytes. */
  lemma {:induction false} RecordsLength(kvs: seq<KeyValue>)
    ensures |Records(kvs)| == TotalSize(kvs)
    ensures TotalSize(kvs) >= 17 * |kvs|
  {
    if kvs != [] {
      RecordsLength(kvs[..|kvs| - 1]);
      SerializeLength(kvs[|kvs| - 1]);
    }
  }

  /** A serialised block is the count, the records and the checksum: 4 + sizes + 4 bytes. */
  lemma {:induction false} BlockBytesLength(kvs: seq<KeyValue>)
    ensures |BlockBytes(kvs)| == KV_SIZE_LEN + TotalSize(kvs) + CHECKSUM_LEN
  {
    RecordsLength(kvs);
  }

  /** A sequence with one more element: its prefix and its last element. */
  lemma {:induction false} SnocParts(kvs: seq<KeyValue>, kv: KeyValue)
    ensures (kvs + [kv])[..|kvs|] == kvs && (kvs + [kv])[|kvs|] == kv
  {
  }

  /** The size after one more record. */
  lemma {:induction false} TotalSizeSnoc(kvs: seq<KeyValue>, kv: KeyValue)
    ensures TotalSize(kvs + [kv]) == TotalSize(kvs) + SerializedSize(kv)
  {
    SnocParts(kvs, kv);
  }

  /** The bytes after one more record. */
  lemma {:induction false} RecordsSnoc(kvs: seq<KeyValue>, kv: KeyValue)
    ensures Records(kvs + [kv]) == Records(kvs) + Serialize(kv)
  {
    SnocParts(kvs, kv);
  }

  lemma {:induction false} AllValidSnoc(kvs: seq<KeyValue>, kv: KeyValue)
    requires AllValid(kvs) && KeyValues.Valid(kv)
    ensures AllValid(kvs + [kv])
  {
    SnocParts(kvs, kv);
  }

  /** The prefix one element longer. */
  lemma {:induction false} PrefixSnoc(kvs: seq<KeyValue>, i: int)
    requires 0 <= i < |kvs|
    ensures kvs[..i + 1] == kvs[..i] + [kvs[i]]
  {
  }

  /** A prefix of a prefix. */
  lemma {:induction false} TakeTake(kvs: seq<KeyValue>, i: int, j: int)
    requires 0 <= i <= j <= |kvs|
    ensures kvs[..j][..i] == kvs[..i]
  {
  }

  /** Sizes and bytes of a prefix one record longer. */
  lemma {:induction false} PrefixStep(kvs: seq<KeyValue>, i: int)
    requires 0 <= i < |kvs|
    ensures TotalSize(kvs[..i + 1]) == TotalSize(kvs[..i]) + SerializedSize(kvs[i])
    ensures Records(kvs[..i + 1]) == Records(kvs[..i]) + Serialize(kvs[i])
    ensures TotalSize(kvs[..i + 1]) <= TotalSize(kvs)
  {
    PrefixSnoc(kvs, i);
    TotalSizeSnoc(kvs[..i], kvs[i]);
    RecordsSnoc(kvs[..i], kvs[i]);
    TotalSizePrefix(kvs, i + 1);
  }

  /** A prefix never takes more bytes than the whole. */
  lemma {:induction false} TotalSizePrefix(kvs: seq<KeyValue>, i: int)
    requires 0 <= i <= |kvs|
    ensures TotalSize(kvs[..i]) <= TotalSize(kvs)
  {
    if i < |kvs| {
      var init := kvs[..|kvs| - 1];
      TakeTake(kvs, i, |kvs| - 1);
      TotalSizePrefix(init, i);
    } else {
      assert kvs[..i] == kvs;
    }
  }

  // ---------------------------------------------------------------------------
  // BlockWriter
  // ---------------------------------------------------------------------------

  /**
   * `BlockWriter`.  `totalSize` holds the exact sum of the serialised sizes;
   * the 32-bit wrap of the Java field shows up in `Size()`.  The checksum
   * object is its register `crc`.
   */
  class BlockWriter {
    var totalSize: int
    var kvCount: int
    var kvBuf: seq<KeyValue>
    var bloomFilter: BloomFilter
    var crc: bv32
    var lastKv: Option<KeyValue>

    /** The fields agree with the records appended so far. */
    predicate Valid()
      reads this, bloomFilter
    {
      Tracks(kvBuf, totalSize, kvCount, crc, lastKv)
      && bloomFilter.k == BLOOM_FILTER_HASH_COUNT && bloomFilter.bitsPerKey == BLOOM_FILTER_HASH_COUNT
    }

    /** An empty writer with a fresh checksum and a `BloomFilter(3, 10)`. */
    constructor()
      ensures Valid() && fresh(bloomFilter)
      ensures kvBuf == [] && totalSize == 0 && kvCount == 0 && lastKv == None
    {
      totalSize := 0;
      kvCount := 0;
      kvBuf := [];
      bloomFilter := new BloomFilter(BLOOM_FILTER_HASH_COUNT, BLOOM_FILTER_BITS_PER_KEY);
      crc := INITIAL;
      lastKv := None;
    }

    /** `append(kv)`: the record joins the buffer, the checksum and the size, and becomes the last record. */
    method Append(kv: KeyValue)
      requires Valid() && KeyValues.Valid(kv)
      modifies this
      ensures Valid() && bloomFilter == old(bloomFilter)
      ensures kvBuf == old(kvBuf) + [kv] && lastKv == Some(kv) && kvCount == old(kvCount) + 1
      ensures totalSize == old(totalSize) + SerializedSize(kv)
    {
      TracksAppend(kvBuf, totalSize, kvCount, crc, lastKv, kv);
      var c := FeedRecord(crc, kv);
      SetTracked(kvBuf + [kv], totalSize + SerializedSize(kv), kvCount + 1, c, Some(kv));
    }

    /** The five fields `append` updates, set together to values that track their records. */
    method SetTracked(kvs: seq<KeyValue>, size: int, count: int, register: bv32, last: Option<KeyValue>)
      requires Valid() && Tracks(kvs, size, count, register, last)
      modifies this
      ensures Valid() && bloomFilter == old(bloomFilter)
      ensures kvBuf == kvs && totalSize == size && kvCount == count && crc == register && lastKv == last
    {
      kvBuf, totalSize, kvCount, crc, lastKv := kvs, size, count, register, last;
    }

    /** `getKvCount()`: the number of records appended. */
    method GetKvCount() returns (r: int)
      requires Valid()
      ensures r == |kvBuf|
    {
      r := kvCount;
    }

    /** `size()`: in Java int arithmetic; exact, and the serialised length, while the block fits in an int. */
    method Size() returns (r: int)
      requires Valid()
      ensures IsInt32(r)
      ensures KV_SIZE_LEN + TotalSize(kvBuf) + CHECKSUM_LEN <= INT32_MAX ==> r == |BlockBytes(kvBuf)|
    {
      r := Wrap32(KV_SIZE_LEN + totalSize + CHECKSUM_LEN);
      Wrap32Identity(KV_SIZE_LEN + totalSize + CHECKSUM_LEN);
      RecordsLength(kvBuf);
      BlockBytesLength(kvBuf);
    }

    /** `getLastKv()`: the record appended last, null before any. */
    method GetLastKv() returns (r: Option<KeyValue>)
      requires Valid()
      ensures r.None? <==> kvBuf == []
      ensures r.Some? ==> r.value == kvBuf[|kvBuf| - 1]
    {
      r := lastKv;
    }

    /** `getCheckSum()`: the CRC-32 of the appended records' bytes as a Java int. */
    method GetCheckSum() returns (r: int)
      requires Valid()
      ensures r == Checksum(kvBuf) && IsInt32(r)
    {
      r := Wrap32(Value(crc));
      Wrap32Identity(Value(crc));
    }

    /** `getBloomFilter()`: the filter of the appended keys in append order. */
    method GetBloomFilter() returns (r: Result<array<Byte>>)
      requires Valid()
      modifies bloomFilter
      ensures Valid()
      ensures r.Err? <==> GenerateBits(BLOOM_FILTER_HASH_COUNT, BLOOM_FILTER_HASH_COUNT, Keys(kvBuf)).Err?
      ensures r.Err? ==> r.error == IndexOutOfBounds
      ensures r.Ok? ==> fresh(r.value)
      ensures r.Ok? ==> GenerateBits(BLOOM_FILTER_HASH_COUNT, BLOOM_FILTER_HASH_COUNT, Keys(kvBuf)).value.1 == r.value[..]
    {
      var bytes := CollectKeys(kvBuf);
      r := bloomFilter.Generate(bytes);
    }

    /** `serialize()`: fills a fresh buffer of `size()` bytes; the writer is left as it was. */
    method Serialize() returns (buffer: array<Byte>)
      requires Valid()
      requires KV_SIZE_LEN + TotalSize(kvBuf) + CHECKSUM_LEN <= INT32_MAX
      ensures fresh(buffer) && buffer[..] == BlockBytes(kvBuf)
    {
      var n := Size();
      RecordsLength(kvBuf);
      buffer := new Byte[n];
      var kvSize := ToBytesInt(|kvBuf|);
      EmptyPrefix(buffer);
      CopyAt(kvSize[..], buffer, 0, []);
      EmptyConcat(EncodeInt32(|kvBuf|));
      var pos := WriteRecords(kvBuf, buffer, KV_SIZE_LEN, EncodeInt32(|kvBuf|));
      WriteChecksum(buffer, pos);
    }

    /** The last step of `serialize()`: the checksum fills the four bytes after the records. */
    method WriteChecksum(buffer: array<Byte>, pos: int)
      requires Valid()
      requires pos + CHECKSUM_LEN == buffer.Length && pos == KV_SIZE_LEN + TotalSize(kvBuf)
      requires buffer[..pos] == EncodeInt32(|kvBuf|) + Records(kvBuf)
      modifies buffer
      ensures buffer[..] == BlockBytes(kvBuf)
    {
      var sum := GetCheckSum();
      var checksum := ToBytesInt(sum);
      CopyAt(checksum[..], buffer, pos, EncodeInt32(|kvBuf|) + Records(kvBuf));
      WholeArray(buffer);
    }
  }

  /**
   * The size, count, checksum register and last record a writer keeps are
   * those of the records `kvs`.
   */
  predicate Tracks(kvs: seq<KeyValue>, totalSize: int, kvCount: int, crc: bv32, lastKv: Option<KeyValue>)
  {
    AllValid(kvs) && totalSize == TotalSize(kvs) && kvCount == |kvs|
    && crc == Update(INITIAL, Records(kvs))
    && lastKv == (if kvs == [] then None else Some(kvs[|kvs| - 1]))
  }

  /** `crc.update(kv.toBytes())`: the register after the record's serialised bytes. */
  method FeedRecord(crc: bv32, kv: KeyValue) returns (r: bv32)
    requires KeyValues.Valid(kv)
    ensures r == Update(crc, Serialize(kv))
  {
    var buf := ToBytes(kv);
    r := Update(crc, buf[..]);
  }

  /** Appending a record moves each kept quantity the way `append` does. */
  lemma {:induction false} TracksAppend(kvs: seq<KeyValue>, totalSize: int, kvCount: int, crc: bv32,
                                        lastKv: Option<KeyValue>, kv: KeyValue)
    requires Tracks(kvs, totalSize, kvCount, crc, lastKv) && KeyValues.Valid(kv)
    ensures Tracks(kvs + [kv], totalSize + SerializedSize(kv), kvCount + 1, Update(crc, Serialize(kv)), Some(kv))
  {
    AllValidSnoc(kvs, kv);
    TotalSizeSnoc(kvs, kv);
    RecordsSnoc(kvs, kv);
    SnocParts(kvs, kv);
    UpdateConcat(INITIAL, Records(kvs), Serialize(kv));
  }

  /** The loop of `getBloomFilter` that gathers the keys. */
  method CollectKeys(kvs: seq<KeyValue>) returns (keys: seq<seq<Byte>>)
    ensures keys == Keys(kvs)
  {
    keys := [];
    for i := 0 to |kvs|
      invariant keys == Keys(kvs[..i])
    {
      keys := keys + [kvs[i].key];
    }
    assert kvs[..|kvs|] == kvs;
  }

  /** The loop of `serialize` that copies each record's `toBytes()` at the cursor. */
  method WriteRecords(kvs: seq<KeyValue>, buffer: array<Byte>, start: int, ghost written: seq<Byte>)
    returns (pos: int)
    requires AllValid(kvs) && 0 <= start && start + TotalSize(kvs) <= buffer.Length
    requires buffer[..start] == written
    modifies buffer
    ensures pos == start + TotalSize(kvs) && buffer[..pos] == written + Records(kvs)
  {
    pos := start;
    for i := 0 to |kvs|
      invariant pos == start + TotalSize(kvs[..i]) && pos <= start + TotalSize(kvs)
      invariant buffer[..pos] == written + Records(kvs[..i])
    {
      var kv := ToBytes(kvs[i]);
      WriteStep(kvs, i, written);
      CopyAt(kv[..], buffer, pos, written + Records(kvs[..i]));
      pos := pos + kv.Length;
    }
    assert kvs[..|kvs|] == kvs;
  }

  /** The cursor and the bytes written after one more record of the loop. */
  lemma {:induction false} WriteStep(kvs: seq<KeyValue>, i: int, written: seq<Byte>)
    requires 0 <= i < |kvs|
    ensures TotalSize(kvs[..i + 1]) == TotalSize(kvs[..i]) + |Serialize(kvs[i])|
    ensures TotalSize(kvs[..i + 1]) <= TotalSize(kvs)
    ensures written + Records(kvs[..i]) + Serialize(kvs[i]) == written + Records(kvs[..i + 1])
  {
    PrefixStep(kvs, i);
    SerializeLength(kvs[i]);
    AppendAssoc(written, Records(kvs[..i]), Serialize(kvs[i]));
  }

  /**
   * The writer's bloom filter is built and never rules out a key that was
   * appended, for any block of up to 2^28 records (a block under the 2 MiB
   * limit holds far fewer).
   */
  lemma {:induction false} WriterFilterHasKeys(kvs: seq<KeyValue>, i: int)
    requires 0 <= i < |kvs| <= 0x1000_0000
    ensures GenerateBits(BLOOM_FILTER_HASH_COUNT, BLOOM_FILTER_HASH_COUNT, Keys(kvs)).Ok?
    ensures var g := GenerateBits(BLOOM_FILTER_HASH_COUNT, BLOOM_FILTER_HASH_COUNT, Keys(kvs)).value;
      MayContain(g.1, g.0, BLOOM_FILTER_HASH_COUNT, kvs[i].key) == Ok(true)
  {
    assert Keys(kvs)[i] == kvs[i].key;
    BlockFilterFits(|Keys(kvs)|);
    NoFalseNegatives(BLOOM_FILTER_HASH_COUNT, BLOOM_FILTER_HASH_COUNT, Keys(kvs), kvs[i].key);
  }

  // ---------------------------------------------------------------------------
  // BlockReader.parseFrom
  // ---------------------------------------------------------------------------

  /** The record parser of `parseFrom`: `KeyValue.parseFrom(buffer, pos)`. */
  function RecordAt(buf: seq<Byte>): int -> Result<KeyValue>
  {
    p => ParseAt(buf, p)
  }

  /**
   * The record loop of `parseFrom` with record parser `parse`: `n` records
   * back to back from `start`, each parsed where the one before ended, with
   * the position after them.  The first record that fails to parse ends the
   * loop with its error.
   */
  function ParseRecords(parse: int -> Result<KeyValue>, start: int, n: nat): (r: Result<(seq<KeyValue>, int)>)
    ensures r.Ok? ==> |r.value.0| == n && start <= r.value.1
  {
    if n == 0 then Ok(([], start))
    else
      var prev :- ParseRecords(parse, start, n - 1);
      var kv :- parse(prev.1);
      Ok((prev.0 + [kv], prev.1 + SerializedSize(kv)))
  }

  /** The loop bound `kvSize`: a negative count runs the loop zero times. */
  function LoopCount(kvSize: int): nat
  {
    if kvSize > 0 then kvSize else 0
  }

  /**
   * `parseFrom(buffer, offset, size)` on a non-null buffer: the count, the
   * records, the checksum, then the two assertions.  The second compares
   * the end position with `size`, which is the block length when the block
   * starts at offset 0, as it does for its only caller.
   */
  function ParseBlockAt(buf: seq<Byte>, offset: int, size: int): Result<seq<KeyValue>>
  {
    ParseBlockWith(RecordAt(buf), buf, offset, size)
  }

  /** The steps of `parseFrom`, with the record parser as a parameter. */
  function ParseBlockWith(parse: int -> Result<KeyValue>, buf: seq<Byte>, offset: int, size: int): Result<seq<KeyValue>>
  {
    var countBytes :- SliceOf(Some(buf), offset, KV_SIZE_LEN);
    var records :- ParseRecords(parse, offset + KV_SIZE_LEN, LoopCount(DecodeInt32(countBytes)));
    ParseBlockTail(buf, offset, size, records.0, records.1)
  }

  /** After the records `kvs` ending at `end`: the checksum over their bytes, then the block's size. */
  function ParseBlockTail(buf: seq<Byte>, offset: int, size: int, kvs: seq<KeyValue>, end: int): Result<seq<KeyValue>>
    requires 0 <= offset + KV_SIZE_LEN <= end
  {
    var checksumBytes :- SliceOf(Some(buf), end, CHECKSUM_LEN);
    if DecodeInt32(checksumBytes) != Wrap32(Crc(buf[offset + KV_SIZE_LEN..end])) then Err(AssertionFailed)
    else if end + CHECKSUM_LEN != size then Err(AssertionFailed)
    else Ok(kvs)
  }

  /** Once the count has been read, `parseFrom` fails as the record loop does or goes on to the checksum. */
  lemma {:induction false} BlockWithAfterCount(parse: int -> Result<KeyValue>, buf: seq<Byte>, offset: int, size: int,
                                               rec: Result<(seq<KeyValue>, int)>)
    requires |buf| <= INT32_MAX && 0 <= offset && offset + KV_SIZE_LEN <= |buf|
    requires rec == ParseRecords(parse, offset + KV_SIZE_LEN, LoopCount(DecodeInt32(buf[offset..offset + KV_SIZE_LEN])))
    ensures rec.Err? ==> ParseBlockWith(parse, buf, offset, size) == Err(rec.error)
    ensures rec.Ok? ==> ParseBlockWith(parse, buf, offset, size) == ParseBlockTail(buf, offset, size, rec.value.0, rec.value.1)
  {
    assert SliceOf(Some(buf), offset, KV_SIZE_LEN) == Ok(buf[offset..offset + KV_SIZE_LEN]);
  }

  /** `parseFrom`, null buffer included. */
  function ParseBlock(buf: Option<seq<Byte>>, offset: int, size: int): Result<seq<KeyValue>>
  {
    match buf
    case None => Err(NullBuffer)
    case Some(s) => ParseBlockAt(s, offset, size)
  }

  // The record loop for any record parser.

  /** Where record `i` starts when the records are `kvs` and the first starts at `start`. */
  function RecordStart(kvs: seq<KeyValue>, start: int, i: int): int
    requires 0 <= i <= |kvs|
  {
    start + TotalSize(kvs[..i])
  }

  /** The parser reads record `i` of `kvs` where the records before it end. */
  predicate ParsesEach(parse: int -> Result<KeyValue>, start: int, kvs: seq<KeyValue>)
  {
    forall i {:trigger RecordStart(kvs, start, i)} | 0 <= i < |kvs| :: parse(RecordStart(kvs, start, i)) == Ok(kvs[i])
  }

  /** One more round of the loop, given the rounds before it and the record it reads. */
  lemma {:induction false} RecordsStep(parse: int -> Result<KeyValue>, start: int, n: nat, init: seq<KeyValue>, mid: int, last: KeyValue)
    requires n > 0
    requires ParseRecords(parse, start, n - 1) == Ok((init, mid))
    requires parse(mid) == Ok(last)
    ensures ParseRecords(parse, start, n) == Ok((init + [last], mid + SerializedSize(last)))
  {
  }

  /** A round whose record fails ends the loop with that record's error. */
  lemma {:induction false} RecordsStepFails(parse: int -> Result<KeyValue>, start: int, n: nat, init: seq<KeyValue>, mid: int)
    requires n > 0
    requires ParseRecords(parse, start, n - 1) == Ok((init, mid))
    requires parse(mid).Err?
    ensures ParseRecords(parse, start, n) == Err(parse(mid).error)
  {
  }

  /** What a successful round of the loop is made of. */
  lemma {:induction false} RecordsLast(parse: int -> Result<KeyValue>, start: int, n: nat, kvs: seq<KeyValue>, end: int)
    returns (init: seq<KeyValue>, mid: int, last: KeyValue)
    requires n > 0
    requires ParseRecords(parse, start, n) == Ok((kvs, end))
    ensures ParseRecords(parse, start, n - 1) == Ok((init, mid))
    ensures parse(mid) == Ok(last)
    ensures kvs == init + [last] && end == mid + SerializedSize(last)
  {
    var prev := ParseRecords(parse, start, n - 1).value;
    init, mid := prev.0, prev.1;
    last := parse(mid).value;
  }

  /** An error stays the loop's result however many more rounds were asked for. */
  lemma {:induction false} RecordsErrorStays(parse: int -> Result<KeyValue>, start: int, i: nat, n: nat)
    requires i <= n && ParseRecords(parse, start, i).Err?
    ensures ParseRecords(parse, start, n) == ParseRecords(parse, start, i)
    decreases n
  {
    if i < n {
      RecordsErrorStays(parse, start, i, n - 1);
    }
  }

  /** The loop reads the records `kvs` exactly when the parser reads each where the one before ends. */
  lemma {:induction false} RecordsOk(parse: int -> Result<KeyValue>, start: int, kvs: seq<KeyValue>)
    ensures ParseRecords(parse, start, |kvs|) == Ok((kvs, start + TotalSize(kvs))) <==> ParsesEach(parse, start, kvs)
  {
    if ParseRecords(parse, start, |kvs|) == Ok((kvs, start + TotalSize(kvs))) {
      RecordsOkParses(parse, start, |kvs|, kvs, start + TotalSize(kvs));
    }
    if ParsesEach(parse, start, kvs) {
      ParsesRecordsOk(parse, start, kvs);
    }
  }

  /** A successful loop ends after the records it read, each of which the parser reads at its start. */
  lemma {:induction false} RecordsOkParses(parse: int -> Result<KeyValue>, start: int, n: nat, kvs: seq<KeyValue>, end: int)
    requires ParseRecords(parse, start, n) == Ok((kvs, end))
    ensures end == start + TotalSize(kvs) && ParsesEach(parse, start, kvs)
  {
    if n > 0 {
      var init, mid, last := RecordsLast(parse, start, n, kvs, end);
      RecordsOkParses(parse, start, n - 1, init, mid);
      ExtendParses(parse, start, init, last);
    }
  }

  /** `ParsesEach` one record further. */
  lemma {:induction false} ExtendParses(parse: int -> Result<KeyValue>, start: int, init: seq<KeyValue>, last: KeyValue)
    requires ParsesEach(parse, start, init)
    requires parse(start + TotalSize(init)) == Ok(last)
    ensures ParsesEach(parse, start, init + [last])
    ensures start + TotalSize(init) + SerializedSize(last) == start + TotalSize(init + [last])
  {
    var kvs := init + [last];
    TotalSizeSnoc(init, last);
    forall i | 0 <= i < |kvs|
      ensures parse(RecordStart(kvs, start, i)) == Ok(kvs[i])
    {
      if i < |init| {
        assert kvs[..i] == init[..i];
        assert parse(RecordStart(init, start, i)) == Ok(init[i]);
      } else {
        assert kvs[..i] == init;
      }
    }
  }

  /** Records the parser reads one after the other are what the loop returns. */
  lemma {:induction false} ParsesRecordsOk(parse: int -> Result<KeyValue>, start: int, kvs: seq<KeyValue>)
    requires ParsesEach(parse, start, kvs)
    ensures ParseRecords(parse, start, |kvs|) == Ok((kvs, start + TotalSize(kvs)))
  {
    if kvs != [] {
      var n := |kvs|;
      var init, last := kvs[..n - 1], kvs[n - 1];
      ShrinkParses(parse, start, kvs);
      ParsesRecordsOk(parse, start, init);
      TotalSizeSnoc(init, last);
      assert init + [last] == kvs;
      RecordsStep(parse, start, n, init, start + TotalSize(init), last);
    }
  }

  /** `ParsesRecordsOk` with the end position named. */
  lemma {:induction false} ParsesRecordsOkTo(parse: int -> Result<KeyValue>, start: int, kvs: seq<KeyValue>, end: int)
    requires ParsesEach(parse, start, kvs) && end == start + TotalSize(kvs)
    ensures ParseRecords(parse, start, |kvs|) == Ok((kvs, end))
  {
    ParsesRecordsOk(parse, start, kvs);
  }

  /** `ShrinkParses` with the prefix, the last record and its start named. */
  lemma {:induction false} ShrinkParsesAt(parse: int -> Result<KeyValue>, start: int, kvs: seq<KeyValue>,
                                          init: seq<KeyValue>, last: KeyValue, mid: int)
    requires kvs != [] && ParsesEach(parse, start, kvs)
    requires init == kvs[..|kvs| - 1] && last == kvs[|kvs| - 1] && mid == start + TotalSize(init)
    ensures ParsesEach(parse, start, init) && parse(mid) == Ok(last)
  {
    ShrinkParses(parse, start, kvs);
  }

  /** `ParsesEach` for all records but the last, and the last at its start. */
  lemma {:induction false} ShrinkParses(parse: int -> Result<KeyValue>, start: int, kvs: seq<KeyValue>)
    requires kvs != [] && ParsesEach(parse, start, kvs)
    ensures ParsesEach(parse, start, kvs[..|kvs| - 1])
    ensures parse(start + TotalSize(kvs[..|kvs| - 1])) == Ok(kvs[|kvs| - 1])
  {
    var init := kvs[..|kvs| - 1];
    forall i | 0 <= i < |init|
      ensures parse(RecordStart(init, start, i)) == Ok(init[i])
    {
      assert init[..i] == kvs[..i];
      assert parse(RecordStart(kvs, start, i)) == Ok(kvs[i]);
    }
    assert parse(RecordStart(kvs, start, |init|)) == Ok(kvs[|init|]);
  }

  // The record loop over a buffer.

  /** Records serialised back to back are read by `parseFrom` each at its start. */
  lemma {:induction false} RecordsReadable(kvs: seq<KeyValue>, buf: seq<Byte>, pos: int)
    requires AllValid(kvs) && 0 <= pos && pos + TotalSize(kvs) <= |buf| <= INT32_MAX
    requires buf[pos..pos + TotalSize(kvs)] == Records(kvs)
    ensures ParsesEach(RecordAt(buf), pos, kvs)
  {
    forall i | 0 <= i < |kvs|
      ensures RecordAt(buf)(RecordStart(kvs, pos, i)) == Ok(kvs[i])
    {
      RecordInside(kvs, buf, pos, i);
      ParseSerializedAt(kvs[i], buf, pos + TotalSize(kvs[..i]));
    }
  }

  /** Record `i` of records serialised back to back sits at its start. */
  lemma {:induction false} RecordInside(kvs: seq<KeyValue>, buf: seq<Byte>, pos: int, i: int)
    requires 0 <= i < |kvs| && 0 <= pos && pos + TotalSize(kvs) <= |buf|
    requires buf[pos..pos + TotalSize(kvs)] == Records(kvs)
    ensures pos + TotalSize(kvs[..i]) + SerializedSize(kvs[i]) <= pos + TotalSize(kvs)
    ensures buf[pos + TotalSize(kvs[..i])..pos + TotalSize(kvs[..i]) + SerializedSize(kvs[i])] == Serialize(kvs[i])
  {
    RecordsLength(kvs);
    PrefixBytes(kvs, i);
    PartAt(buf, pos, Records(kvs), Records(kvs[..i]), Serialize(kvs[i]),
      pos + TotalSize(kvs[..i]), SerializedSize(kvs[i]));
  }

  /** The bytes of all records begin with those of the records before `i` and then record `i`. */
  lemma {:induction false} PrefixBytes(kvs: seq<KeyValue>, i: int)
    requires 0 <= i < |kvs|
    ensures |Records(kvs[..i])| == TotalSize(kvs[..i]) && |Serialize(kvs[i])| == SerializedSize(kvs[i])
    ensures |Records(kvs[..i])| + |Serialize(kvs[i])| <= |Records(kvs)|
    ensures Records(kvs)[..|Records(kvs[..i])| + |Serialize(kvs[i])|] == Records(kvs[..i]) + Serialize(kvs[i])
  {
    RecordsPrefix(kvs, i + 1);
    PrefixStep(kvs, i);
    RecordsLength(kvs[..i]);
    SerializeLength(kvs[i]);
  }

  /** The bytes of a prefix of the records start the bytes of all of them. */
  lemma {:induction false} RecordsPrefix(kvs: seq<KeyValue>, j: int)
    requires 0 <= j <= |kvs|
    ensures TotalSize(kvs[..j]) <= |Records(kvs)| && Records(kvs)[..TotalSize(kvs[..j])] == Records(kvs[..j])
    decreases |kvs|
  {
    RecordsLength(kvs);
    if j == |kvs| {
      assert kvs[..j] == kvs;
      TakeAll(Records(kvs));
    } else {
      var init := kvs[..|kvs| - 1];
      RecordsPrefix(init, j);
      TakeTake(kvs, j, |kvs| - 1);
      RecordsLength(init);
      TotalSizePrefix(init, j);
      TakeOfConcat(Records(init), Serialize(kvs[|kvs| - 1]), TotalSize(kvs[..j]));
    }
  }

  /** Records read one after the other by `parseFrom` are valid, and their bytes are the ones read. */
  lemma {:induction false} ReadRecordsAreSerialized(kvs: seq<KeyValue>, buf: seq<Byte>, pos: int)
    requires |buf| <= INT32_MAX && 0 <= pos <= |buf|
    requires ParsesEach(RecordAt(buf), pos, kvs)
    ensures AllValid(kvs) && pos + TotalSize(kvs) <= |buf|
    ensures buf[pos..pos + TotalSize(kvs)] == Records(kvs)
  {
    if kvs != [] {
      var init, last := kvs[..|kvs| - 1], kvs[|kvs| - 1];
      var mid := pos + TotalSize(init);
      LastSplit(kvs);
      ShrinkParsesAt(RecordAt(buf), pos, kvs, init, last, mid);
      ReadRecordsAreSerialized(init, buf, pos);
      ReadAt(buf, mid, last);
      ParsedRecordIsSerialized(buf, mid, last);
      JoinLast(buf, pos, mid, mid + SerializedSize(last), init, last);
    }
  }

  /** What the record loop reads at `p` is what `parseFrom` reads there. */
  lemma {:induction false} ReadAt(buf: seq<Byte>, p: int, kv: KeyValue)
    requires RecordAt(buf)(p) == Ok(kv)
    ensures ParseAt(buf, p) == Ok(kv)
  {
  }

  /** A non-empty sequence is its prefix followed by its last element. */
  lemma {:induction false} LastSplit(kvs: seq<KeyValue>)
    requires kvs != []
    ensures kvs[..|kvs| - 1] + [kvs[|kvs| - 1]] == kvs
  {
  }

  /** The bytes of the records before and of one more record, side by side. */
  lemma {:induction false} JoinLast(buf: seq<Byte>, pos: int, mid: int, end: int, init: seq<KeyValue>, last: KeyValue)
    requires AllValid(init) && KeyValues.Valid(last)
    requires 0 <= pos <= mid && mid == pos + TotalSize(init) && end == mid + SerializedSize(last) <= |buf|
    requires buf[pos..mid] == Records(init) && buf[mid..end] == Serialize(last)
    ensures AllValid(init + [last]) && end == pos + TotalSize(init + [last])
    ensures buf[pos..end] == Records(init + [last])
  {
    AllValidSnoc(init, last);
    TotalSizeSnoc(init, last);
    RecordsSnoc(init, last);
    SliceJoin(buf, pos, mid, end);
  }

  /** Records serialised back to back parse back, ending right after the last one. */
  lemma {:induction false} RecordsRoundTrip(kvs: seq<KeyValue>, buf: seq<Byte>, pos: int, end: int)
    requires AllValid(kvs) && 0 <= pos && end == pos + TotalSize(kvs) && end <= |buf| <= INT32_MAX
    requires buf[pos..end] == Records(kvs)
    ensures ParseRecords(RecordAt(buf), pos, |kvs|) == Ok((kvs, end))
  {
    RecordsReadable(kvs, buf, pos);
    ParsesRecordsOkTo(RecordAt(buf), pos, kvs, end);
  }

  /** Whatever the record loop accepts is valid records whose bytes are exactly those consumed. */
  lemma {:induction false} ParsedRecordsAreSerialized(buf: seq<Byte>, pos: int, n: nat, kvs: seq<KeyValue>, end: int)
    requires |buf| <= INT32_MAX && 0 <= pos <= |buf|
    requires ParseRecords(RecordAt(buf), pos, n) == Ok((kvs, end))
    ensures AllValid(kvs) && |kvs| == n && end == pos + TotalSize(kvs) && end <= |buf|
    ensures buf[pos..end] == Records(kvs)
  {
    RecordsOkParses(RecordAt(buf), pos, n, kvs, end);
    ReadRecordsAreSerialized(kvs, buf, pos);
  }

  // The whole block.

  /** The count, the records and the checksum of a serialised block, each at its place. */
  lemma {:induction false} BlockParts(kvs: seq<KeyValue>, buf: seq<Byte>, offset: int)
    requires 0 <= offset && offset + |BlockBytes(kvs)| <= |buf|
    requires buf[offset..offset + |BlockBytes(kvs)|] == BlockBytes(kvs)
    ensures offset + |BlockBytes(kvs)| == offset + KV_SIZE_LEN + TotalSize(kvs) + CHECKSUM_LEN
    ensures buf[offset..offset + KV_SIZE_LEN] == EncodeInt32(|kvs|)
    ensures buf[offset + KV_SIZE_LEN..offset + KV_SIZE_LEN + TotalSize(kvs)] == Records(kvs)
    ensures buf[offset + KV_SIZE_LEN + TotalSize(kvs)..offset + KV_SIZE_LEN + TotalSize(kvs) + CHECKSUM_LEN]
      == EncodeInt32(Checksum(kvs))
  {
    BlockBytesLength(kvs);
    RecordsLength(kvs);
    EncodedLengths(|kvs|);
    EncodedLengths(Checksum(kvs));
    var k := offset + |BlockBytes(kvs)|;
    ThreeParts(buf, offset, EncodeInt32(|kvs|), Records(kvs), EncodeInt32(Checksum(kvs)),
      offset + KV_SIZE_LEN, offset + KV_SIZE_LEN + TotalSize(kvs), k);
  }

  /**
   * `parseFrom` gives back the records of a serialised block, wherever the
   * block sits, when `size` is the position right after it.
   */
  lemma {:induction false} BlockRoundTrip(kvs: seq<KeyValue>, buf: seq<Byte>, offset: int)
    requires AllValid(kvs) && |buf| <= INT32_MAX
    requires 0 <= offset && offset + |BlockBytes(kvs)| <= |buf|
    requires buf[offset..offset + |BlockBytes(kvs)|] == BlockBytes(kvs)
    ensures ParseBlockAt(buf, offset, offset + |BlockBytes(kvs)|) == Ok(kvs)
  {
    BlockParts(kvs, buf, offset);
    var end := offset + KV_SIZE_LEN + TotalSize(kvs);
    PartsRoundTrip(kvs, buf, offset, end, Records(kvs), Checksum(kvs));
  }

  /** `BlockRoundTrip` with the count, the records and the checksum given by their places. */
  lemma {:induction false} PartsRoundTrip(kvs: seq<KeyValue>, buf: seq<Byte>, offset: int, end: int,
                                          records: seq<Byte>, sum: int)
    requires AllValid(kvs) && |buf| <= INT32_MAX && 0 <= offset
    requires end == offset + KV_SIZE_LEN + TotalSize(kvs) && end + CHECKSUM_LEN <= |buf|
    requires buf[offset..offset + KV_SIZE_LEN] == EncodeInt32(|kvs|)
    requires records == Records(kvs) && buf[offset + KV_SIZE_LEN..end] == records
    requires sum == Wrap32(Crc(records)) && buf[end..end + CHECKSUM_LEN] == EncodeInt32(sum)
    ensures ParseBlockAt(buf, offset, end + CHECKSUM_LEN) == Ok(kvs)
  {
    RecordsRoundTrip(kvs, buf, offset + KV_SIZE_LEN, end);
    CountAndSumDecode(kvs, buf, offset, end, records, sum);
    ParseBlockFromParts(buf, offset, end + CHECKSUM_LEN, |kvs|, |kvs|, kvs, end, records);
  }

  /** The count and the checksum fields of a serialised block decode to their values. */
  lemma {:induction false} CountAndSumDecode(kvs: seq<KeyValue>, buf: seq<Byte>, offset: int, end: int,
                                             records: seq<Byte>, sum: int)
    requires AllValid(kvs) && |buf| <= INT32_MAX && 0 <= offset
    requires end == offset + KV_SIZE_LEN + TotalSize(kvs) && end + CHECKSUM_LEN <= |buf|
    requires buf[offset..offset + KV_SIZE_LEN] == EncodeInt32(|kvs|)
    requires records == Records(kvs)
    requires sum == Wrap32(Crc(records)) && buf[end..end + CHECKSUM_LEN] == EncodeInt32(sum)
    ensures DecodeInt32(buf[offset..offset + KV_SIZE_LEN]) == |kvs| == LoopCount(|kvs|)
    ensures DecodeInt32(buf[end..end + CHECKSUM_LEN]) == Wrap32(Crc(records))
  {
    RecordsLength(kvs);
    Int32RoundTrip(|kvs|);
    Wrap32Identity(Crc(records));
    Int32RoundTrip(sum);
  }

  /** `parseFrom` succeeds once each of its steps does. */
  lemma {:induction false} ParseBlockFromParts(buf: seq<Byte>, offset: int, size: int, count: int, n: nat,
                                               kvs: seq<KeyValue>, end: int, records: seq<Byte>)
    requires |buf| <= INT32_MAX && 0 <= offset && offset + KV_SIZE_LEN <= |buf|
    requires DecodeInt32(buf[offset..offset + KV_SIZE_LEN]) == count && n == LoopCount(count)
    requires ParseRecords(RecordAt(buf), offset + KV_SIZE_LEN, n) == Ok((kvs, end))
    requires end + CHECKSUM_LEN == size <= |buf|
    requires buf[offset + KV_SIZE_LEN..end] == records
    requires DecodeInt32(buf[end..end + CHECKSUM_LEN]) == Wrap32(Crc(records))
    ensures ParseBlockAt(buf, offset, size) == Ok(kvs)
  {
    BlockWithFromParts(RecordAt(buf), buf, offset, size, count, n, kvs, end, records);
  }

  /** `ParseBlockFromParts` for any record parser. */
  lemma {:induction false} BlockWithFromParts(parse: int -> Result<KeyValue>, buf: seq<Byte>, offset: int, size: int,
                                              count: int, n: nat, kvs: seq<KeyValue>, end: int, records: seq<Byte>)
    requires |buf| <= INT32_MAX && 0 <= offset && offset + KV_SIZE_LEN <= |buf|
    requires DecodeInt32(buf[offset..offset + KV_SIZE_LEN]) == count && n == LoopCount(count)
    requires ParseRecords(parse, offset + KV_SIZE_LEN, n) == Ok((kvs, end))
    requires end + CHECKSUM_LEN == size <= |buf|
    requires buf[offset + KV_SIZE_LEN..end] == records
    requires DecodeInt32(buf[end..end + CHECKSUM_LEN]) == Wrap32(Crc(records))
    ensures ParseBlockWith(parse, buf, offset, size) == Ok(kvs)
  {
    SliceOk(buf, offset, KV_SIZE_LEN);
    SliceOk(buf, end, CHECKSUM_LEN);
  }

  /** `BlockRoundTrip` for a buffer holding just the block, as the file reader passes it. */
  lemma {:induction false} BlockRoundTripAtZero(kvs: seq<KeyValue>)
    requires AllValid(kvs) && |BlockBytes(kvs)| <= INT32_MAX
    ensures ParseBlock(Some(BlockBytes(kvs)), 0, |BlockBytes(kvs)|) == Ok(kvs)
  {
    var buf := BlockBytes(kvs);
    TakeAll(buf);
    BlockRoundTrip(kvs, buf, 0);
  }

  /** The parts `parseFrom` reads, when it succeeds. */
  lemma {:induction false} BlockAtOk(buf: seq<Byte>, offset: int, size: int, kvs: seq<KeyValue>)
    returns (count: int, end: int)
    requires ParseBlockAt(buf, offset, size) == Ok(kvs)
    ensures 0 <= offset && offset + KV_SIZE_LEN <= |buf| && count == DecodeInt32(buf[offset..offset + KV_SIZE_LEN])
    ensures ParseRecords(RecordAt(buf), offset + KV_SIZE_LEN, LoopCount(count)) == Ok((kvs, end))
    ensures 0 <= end && end + CHECKSUM_LEN == size <= |buf|
    ensures DecodeInt32(buf[end..end + CHECKSUM_LEN]) == Wrap32(Crc(buf[offset + KV_SIZE_LEN..end]))
  {
    count, end := BlockWithOk(RecordAt(buf), buf, offset, size, kvs);
  }

  /** `BlockAtOk` for any record parser. */
  lemma {:induction false} BlockWithOk(parse: int -> Result<KeyValue>, buf: seq<Byte>, offset: int, size: int,
                                       kvs: seq<KeyValue>)
    returns (count: int, end: int)
    requires ParseBlockWith(parse, buf, offset, size) == Ok(kvs)
    ensures 0 <= offset && offset + KV_SIZE_LEN <= |buf| && count == DecodeInt32(buf[offset..offset + KV_SIZE_LEN])
    ensures ParseRecords(parse, offset + KV_SIZE_LEN, LoopCount(count)) == Ok((kvs, end))
    ensures 0 <= end && end + CHECKSUM_LEN == size <= |buf|
    ensures DecodeInt32(buf[end..end + CHECKSUM_LEN]) == Wrap32(Crc(buf[offset + KV_SIZE_LEN..end]))
  {
    count := DecodeInt32(buf[offset..offset + KV_SIZE_LEN]);
    end := ParseRecords(parse, offset + KV_SIZE_LEN, LoopCount(count)).value.1;
  }

  /**
   * Conversely, whatever `parseFrom` accepts is valid records whose bytes
   * sit between the count and a checksum that matches them, ending at
   * `size`; with a non-negative count the bytes are exactly the
   * serialised block.  A negative count reads as an empty block.
   */
  lemma {:induction false} ParsedBlockIsSerialized(buf: seq<Byte>, offset: int, size: int, kvs: seq<KeyValue>)
    requires |buf| <= INT32_MAX
    requires ParseBlockAt(buf, offset, size) == Ok(kvs)
    ensures AllValid(kvs) && 0 <= offset && size == offset + KV_SIZE_LEN + TotalSize(kvs) + CHECKSUM_LEN <= |buf|
    ensures buf[offset + KV_SIZE_LEN..offset + KV_SIZE_LEN + TotalSize(kvs)] == Records(kvs)
    ensures buf[size - CHECKSUM_LEN..size] == EncodeInt32(Checksum(kvs))
    ensures var count := DecodeInt32(buf[offset..offset + KV_SIZE_LEN]);
      (count >= 0 ==> count == |kvs| && buf[offset..size] == BlockBytes(kvs)) && (count < 0 ==> kvs == [])
  {
    var count, end := BlockAtOk(buf, offset, size, kvs);
    BlockPartsSerialized(buf, offset, size, kvs, count, end);
  }

  /** The parts `parseFrom` read are the count, the records' bytes and their checksum. */
  lemma {:induction false} BlockPartsSerialized(buf: seq<Byte>, offset: int, size: int, kvs: seq<KeyValue>, count: int, end: int)
    requires |buf| <= INT32_MAX
    requires 0 <= offset && offset + KV_SIZE_LEN <= |buf| && count == DecodeInt32(buf[offset..offset + KV_SIZE_LEN])
    requires ParseRecords(RecordAt(buf), offset + KV_SIZE_LEN, LoopCount(count)) == Ok((kvs, end))
    requires 0 <= end && end + CHECKSUM_LEN == size <= |buf|
    requires DecodeInt32(buf[end..end + CHECKSUM_LEN]) == Wrap32(Crc(buf[offset + KV_SIZE_LEN..end]))
    ensures AllValid(kvs) && size == offset + KV_SIZE_LEN + TotalSize(kvs) + CHECKSUM_LEN
    ensures buf[offset + KV_SIZE_LEN..offset + KV_SIZE_LEN + TotalSize(kvs)] == Records(kvs)
    ensures buf[size - CHECKSUM_LEN..size] == EncodeInt32(Checksum(kvs))
    ensures count >= 0 ==> count == |kvs| && buf[offset..size] == BlockBytes(kvs)
    ensures count < 0 ==> kvs == []
  {
    var start := offset + KV_SIZE_LEN;
    ParsedRecordsAreSerialized(buf, start, LoopCount(count), kvs, end);
    var checksumBytes := buf[end..end + CHECKSUM_LEN];
    Int32Codec(checksumBytes);
    TakeAll(checksumBytes);
    assert checksumBytes == EncodeInt32(Checksum(kvs));
    if count >= 0 {
      Int32Codec(buf[offset..start]);
      TakeAll(buf[offset..start]);
      JoinThree(buf, offset, EncodeInt32(|kvs|), Records(kvs), EncodeInt32(Checksum(kvs)), start, end, size);
    }
  }
}
