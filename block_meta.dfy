/**
 * The index entry of one data block: the block's last record, where the
 * block lies in the file, and the block's Bloom filter bytes.  Serialised as
 * `lastKv | blockOffset (8) | blockSize (8) | bfLen (4) | bfBytes`.
 */
module BlockMetas {
  import opened Wrappers
  import opened ByteUtils
  import opened KeyValues

  const OFFSET_SIZE: int := 8
  const SIZE_SIZE: int := 8
  const BF_LEN_SIZE: int := 4

  datatype BlockMeta = BlockMeta(lastKv: KeyValue, blockOffset: int, blockSize: int, bfBytes: seq<Byte>)

  /** `createSeekDummy(kv)`: a meta that only serves as a search key in the sorted index. */
  function CreateSeekDummy(kv: KeyValue): BlockMeta
  {
    BlockMeta(kv, 0, 0, [])
  }

  /** `getSerializeSize()`. */
  function MetaSize(m: BlockMeta): int
  {
    SerializedSize(m.lastKv) + OFFSET_SIZE + SIZE_SIZE + BF_LEN_SIZE + |m.bfBytes|
  }

  /** A meta the Java object can hold and serialise: long offset and size, int-sized bytes. */
  predicate MetaValid(m: BlockMeta)
  {
    Valid(m.lastKv) && IsInt64(m.blockOffset) && IsInt64(m.blockSize) && MetaSize(m) <= INT32_MAX
  }

  /** The bytes `toBytes()` produces. */
  function MetaBytes(m: BlockMeta): seq<Byte>
  {
    Serialize(m.lastKv) + TailBytes(m)
  }

  /** The part after the record: offset, size, filter length and filter. */
  function TailBytes(m: BlockMeta): seq<Byte>
  {
    EncodeInt64(m.blockOffset) + EncodeInt64(m.blockSize) + EncodeInt32(|m.bfBytes|) + m.bfBytes
  }

  lemma {:induction false} MetaBytesLength(m: BlockMeta)
    ensures |MetaBytes(m)| == MetaSize(m)
  {
    SerializeLength(m.lastKv);
  }

  /** `toBytes()`: a fresh array filled field by field with a moving `pos`. */
  method ToBytes(m: BlockMeta) returns (bytes: array<Byte>)
    requires MetaValid(m)
    ensures fresh(bytes) && bytes[..] == MetaBytes(m)
  {
    MetaBytesLength(m);
    bytes := new Byte[MetaSize(m)];
    var pos := 0;

    var kvBytes := KeyValues.ToBytes(m.lastKv);
    CopyAt(kvBytes[..], bytes, pos, []);
    pos := pos + kvBytes.Length;
    ghost var record := bytes[..pos];
    assert record == Serialize(m.lastKv);

    pos := WriteTail(m, bytes, pos);
    assert bytes[..pos] == record + TailBytes(m);
    assert pos == bytes.Length;
    assert bytes[..] == bytes[..pos];
  }

  /** The statements of `toBytes()` after the record, from `pos` on. */
  method WriteTail(m: BlockMeta, bytes: array<Byte>, start: int) returns (pos: int)
    requires MetaValid(m) && 0 <= start && start + |TailBytes(m)| <= bytes.Length
    modifies bytes
    ensures pos == start + |TailBytes(m)|
    ensures bytes[..pos] == old(bytes[..start]) + TailBytes(m)
  {
    pos := start;
    ghost var written := bytes[..start];

    var offsetBytes := ToBytesLong(m.blockOffset);
    CopyAt(offsetBytes[..], bytes, pos, written);
    pos := pos + offsetBytes.Length;
    written := written + offsetBytes[..];

    var sizeBytes := ToBytesLong(m.blockSize);
    CopyAt(sizeBytes[..], bytes, pos, written);
    pos := pos + sizeBytes.Length;
    written := written + sizeBytes[..];

    var bfLenBytes := ToBytesInt(|m.bfBytes|);
    CopyAt(bfLenBytes[..], bytes, pos, written);
    pos := pos + bfLenBytes.Length;
    written := written + bfLenBytes[..];

    CopyAt(m.bfBytes, bytes, pos, written);
    pos := pos + |m.bfBytes|;
    written := written + m.bfBytes;
    assert written == old(bytes[..start]) + TailBytes(m);
  }

  /**
   * `parseFrom(buf, offset)` on a non-null buffer: the record, then the
   * fields after it.
   */
  function ParseMetaAt(buf: seq<Byte>, offset: int): Result<BlockMeta>
  {
    var kv :- ParseAt(buf, offset);
    ParseMetaTail(buf, kv, offset + SerializedSize(kv))
  }

  /**
   * The two longs, the filter length and the filter bytes, each through
   * `slice`.  Every position here lies inside a Java array once the previous
   * slice has succeeded, so the source's int additions of positions do not
   * overflow.  The closing `assert pos <= buf.length` always holds after the
   * last slice.
   */
  function ParseMetaTail(buf: seq<Byte>, kv: KeyValue, pos: int): Result<BlockMeta>
  {
    var offsetBytes :- SliceOf(Some(buf), pos, OFFSET_SIZE);
    var sizeBytes :- SliceOf(Some(buf), pos + OFFSET_SIZE, SIZE_SIZE);
    var bfLenBytes :- SliceOf(Some(buf), pos + OFFSET_SIZE + SIZE_SIZE, BF_LEN_SIZE);
    var bf :- SliceOf(Some(buf), pos + OFFSET_SIZE + SIZE_SIZE + BF_LEN_SIZE, DecodeInt32(bfLenBytes));
    Ok(BlockMeta(kv, DecodeInt64(offsetBytes), DecodeInt64(sizeBytes), bf))
  }

  /** `parseFrom(buf, offset)`, null buffer included. */
  function ParseMeta(buf: Option<seq<Byte>>, offset: int): Result<BlockMeta>
  {
    match buf
    case None => Err(NullBuffer)
    case Some(s) => ParseMetaAt(s, offset)
  }

  lemma {:induction false} MetaAtFromTail(buf: seq<Byte>, offset: int, kv: KeyValue)
    requires ParseAt(buf, offset) == Ok(kv)
    ensures ParseMetaAt(buf, offset) == ParseMetaTail(buf, kv, offset + SerializedSize(kv))
  {
  }

  lemma {:induction false} MetaAtFails(buf: seq<Byte>, offset: int)
    requires ParseAt(buf, offset).Err?
    ensures ParseMetaAt(buf, offset) == Err(ParseAt(buf, offset).error)
  {
  }

  /** The four fields of the tail sit at fixed offsets. */
  lemma {:induction false} TailSplit(m: BlockMeta)
    ensures |TailBytes(m)| == 20 + |m.bfBytes|
    ensures TailBytes(m)[..8] == EncodeInt64(m.blockOffset)
    ensures TailBytes(m)[8..16] == EncodeInt64(m.blockSize)
    ensures TailBytes(m)[16..20] == EncodeInt32(|m.bfBytes|)
    ensures TailBytes(m)[20..] == m.bfBytes
  {
    var e1, e2, e3 := EncodeInt64(m.blockOffset), EncodeInt64(m.blockSize), EncodeInt32(|m.bfBytes|);
    assert |e1| == 8 && |e2| == 8 && |e3| == 4;
    var t := TailBytes(m);
    assert t == e1 + (e2 + (e3 + m.bfBytes));
  }

  lemma {:induction false} MetaTailRoundTrip(m: BlockMeta, buf: seq<Byte>, pos: int)
    requires MetaValid(m) && 0 <= pos && pos + |TailBytes(m)| <= |buf| <= INT32_MAX
    requires buf[pos..pos + |TailBytes(m)|] == TailBytes(m)
    ensures ParseMetaTail(buf, m.lastKv, pos) == Ok(m)
  {
    var n := |m.bfBytes|;
    TailFieldsAt(m, buf, pos);
    Int64RoundTrip(m.blockOffset);
    Int64RoundTrip(m.blockSize);
    Int32RoundTrip(n);
    SliceSucceeds(buf, pos, 8);
    SliceSucceeds(buf, pos + 8, 8);
    SliceSucceeds(buf, pos + 16, 4);
    SliceSucceeds(buf, pos + 20, n);
  }

  /** The tail's fields, where they lie in a buffer holding the tail at `pos`. */
  lemma {:induction false} TailFieldsAt(m: BlockMeta, buf: seq<Byte>, pos: int)
    requires 0 <= pos && pos + |TailBytes(m)| <= |buf|
    requires buf[pos..pos + |TailBytes(m)|] == TailBytes(m)
    ensures |TailBytes(m)| == 20 + |m.bfBytes|
    ensures buf[pos..pos + 8] == EncodeInt64(m.blockOffset)
    ensures buf[pos + 8..pos + 16] == EncodeInt64(m.blockSize)
    ensures buf[pos + 16..pos + 20] == EncodeInt32(|m.bfBytes|)
    ensures buf[pos + 20..pos + 20 + |m.bfBytes|] == m.bfBytes
  {
    var n := |m.bfBytes|;
    TailSplit(m);
    var t := buf[pos..pos + 20 + n];
    SubSlice(buf, pos, pos + 20 + n, 0, 8);
    SubSlice(buf, pos, pos + 20 + n, 8, 16);
    SubSlice(buf, pos, pos + 20 + n, 16, 20);
    SubSlice(buf, pos, pos + 20 + n, 20, 20 + n);
    assert t[20..] == t[20..20 + n];
  }

  /** A meta serialised anywhere inside a larger buffer parses back to itself. */
  lemma {:induction false} MetaParseSerialize(m: BlockMeta, pre: seq<Byte>, post: seq<Byte>)
    requires MetaValid(m)
    requires |pre| + MetaSize(m) + |post| <= INT32_MAX
    ensures ParseMetaAt(pre + MetaBytes(m) + post, |pre|) == Ok(m)
  {
    var kv := m.lastKv;
    var t := TailBytes(m);
    var buf := pre + MetaBytes(m) + post;
    var pos := |pre| + SerializedSize(kv);
    assert ParseAt(buf, |pre|) == Ok(kv) by {
      assert buf == pre + Serialize(kv) + (t + post);
      ParseSerialize(kv, pre, t + post);
    }
    assert 0 <= pos && pos + |t| <= |buf| && buf[pos..pos + |t|] == t by {
      SerializeLength(kv);
      assert buf == (pre + Serialize(kv)) + t + post;
    }
    MetaParseAt(m, buf, |pre|);
  }

  lemma {:induction false} MetaParseAt(m: BlockMeta, buf: seq<Byte>, offset: int)
    requires MetaValid(m) && |buf| <= INT32_MAX
    requires ParseAt(buf, offset) == Ok(m.lastKv)
    requires var pos := offset + SerializedSize(m.lastKv);
      0 <= pos && pos + |TailBytes(m)| <= |buf| && buf[pos..pos + |TailBytes(m)|] == TailBytes(m)
    ensures ParseMetaAt(buf, offset) == Ok(m)
  {
    var pos := offset + SerializedSize(m.lastKv);
    MetaTailRoundTrip(m, buf, pos);
    MetaFromTail(buf, offset, m.lastKv, pos, Ok(m));
  }

  lemma {:induction false} MetaTailParsed(buf: seq<Byte>, kv: KeyValue, pos: int, m: BlockMeta)
    requires |buf| <= INT32_MAX
    requires ParseMetaTail(buf, kv, pos) == Ok(m)
    ensures m.lastKv == kv && IsInt64(m.blockOffset) && IsInt64(m.blockSize)
    ensures 0 <= pos && pos + |TailBytes(m)| <= |buf|
    ensures buf[pos..pos + |TailBytes(m)|] == TailBytes(m)
  {
    TailFieldsParsed(buf, kv, pos);
    TailSplit(m);
    JoinFour(buf, pos, EncodeInt64(m.blockOffset), EncodeInt64(m.blockSize), EncodeInt32(|m.bfBytes|), m.bfBytes,
      pos + 8, pos + 16, pos + 20, pos + 20 + |m.bfBytes|);
  }

  /** The fields `parseFrom` read after the record, each re-encoded to the bytes it came from. */
  lemma {:induction false} TailFieldsParsed(buf: seq<Byte>, kv: KeyValue, pos: int)
    requires |buf| <= INT32_MAX
    requires ParseMetaTail(buf, kv, pos).Ok?
    ensures var m := ParseMetaTail(buf, kv, pos).value;
      m.lastKv == kv && 0 <= pos && pos + 20 + |m.bfBytes| <= |buf| &&
      IsInt64(m.blockOffset) && EncodeInt64(m.blockOffset) == buf[pos..pos + 8] &&
      IsInt64(m.blockSize) && EncodeInt64(m.blockSize) == buf[pos + 8..pos + 16] &&
      EncodeInt32(|m.bfBytes|) == buf[pos + 16..pos + 20] &&
      m.bfBytes == buf[pos + 20..pos + 20 + |m.bfBytes|]
  {
    Int64Field(buf, pos);
    Int64Field(buf, pos + 8);
    Int32Field(buf, pos + 16);
  }

  /** A long field read from a buffer re-encodes to its bytes. */
  lemma {:induction false} Int64Field(buf: seq<Byte>, pos: int)
    requires 0 <= pos && pos + 8 <= |buf|
    ensures IsInt64(DecodeInt64(buf[pos..pos + 8])) && EncodeInt64(DecodeInt64(buf[pos..pos + 8])) == buf[pos..pos + 8]
  {
    Int64Codec(buf[pos..pos + 8]);
    assert buf[pos..pos + 8][..8] == buf[pos..pos + 8];
  }

  /** An int field read from a buffer re-encodes to its bytes. */
  lemma {:induction false} Int32Field(buf: seq<Byte>, pos: int)
    requires 0 <= pos && pos + 4 <= |buf|
    ensures IsInt32(DecodeInt32(buf[pos..pos + 4])) && EncodeInt32(DecodeInt32(buf[pos..pos + 4])) == buf[pos..pos + 4]
  {
    Int32Codec(buf[pos..pos + 4]);
    assert buf[pos..pos + 4][..4] == buf[pos..pos + 4];
  }

  /** Conversely, whatever parses is a valid meta whose bytes sit in the buffer at `offset`. */
  lemma {:induction false} ParsedMetaIsSerialized(buf: seq<Byte>, offset: int, m: BlockMeta)
    requires |buf| <= INT32_MAX
    requires ParseMetaAt(buf, offset) == Ok(m)
    ensures MetaValid(m) && 0 <= offset && offset + MetaSize(m) <= |buf|
    ensures buf[offset..offset + MetaSize(m)] == MetaBytes(m)
  {
    var kv, pos := MetaAtOk(buf, offset, m);
    MetaPartsSerialized(buf, offset, kv, pos, m);
  }

  /** A parsed meta lies inside the buffer and takes up at least one byte. */
  lemma {:induction false} ParsedMetaFits(buf: seq<Byte>, offset: int, m: BlockMeta)
    requires |buf| <= INT32_MAX
    requires ParseMetaAt(buf, offset) == Ok(m)
    ensures 0 <= offset && 0 < MetaSize(m) && offset + MetaSize(m) <= |buf|
  {
    ParsedMetaIsSerialized(buf, offset, m);
  }

  /** A record and a tail that both parse are a valid meta's bytes. */
  lemma {:induction false} MetaPartsSerialized(buf: seq<Byte>, offset: int, kv: KeyValue, pos: int, m: BlockMeta)
    requires |buf| <= INT32_MAX
    requires ParseAt(buf, offset) == Ok(kv) && pos == offset + SerializedSize(kv)
    requires ParseMetaTail(buf, kv, pos) == Ok(m)
    ensures MetaValid(m) && 0 <= offset && offset + MetaSize(m) <= |buf|
    ensures buf[offset..offset + MetaSize(m)] == MetaBytes(m)
  {
    MetaTailParsed(buf, kv, pos, m);
    ParsedRecordIsSerialized(buf, offset, kv);
    AssembleMeta(buf, offset, pos, m);
  }

  /** A meta that parses had its record parse, and the rest parse after it. */
  lemma {:induction false} MetaAtOk(buf: seq<Byte>, offset: int, m: BlockMeta) returns (kv: KeyValue, pos: int)
    requires ParseMetaAt(buf, offset) == Ok(m)
    ensures ParseAt(buf, offset) == Ok(kv) && pos == offset + SerializedSize(kv)
    ensures ParseMetaTail(buf, kv, pos) == Ok(m)
  {
    kv := ParseAt(buf, offset).value;
    pos := offset + SerializedSize(kv);
  }

  /** A record followed by a tail is the meta's bytes. */
  lemma {:induction false} AssembleMeta(buf: seq<Byte>, offset: int, pos: int, m: BlockMeta)
    requires 0 <= offset && pos == offset + SerializedSize(m.lastKv) && pos <= |buf|
    requires buf[offset..pos] == Serialize(m.lastKv)
    requires pos + |TailBytes(m)| <= |buf| && buf[pos..pos + |TailBytes(m)|] == TailBytes(m)
    ensures offset + MetaSize(m) <= |buf| && buf[offset..offset + MetaSize(m)] == MetaBytes(m)
  {
    MetaBytesLength(m);
    var end := pos + |TailBytes(m)|;
    assert buf[offset..end] == buf[offset..pos] + buf[pos..end];
  }

  /** The record `parseFrom` accepts ends inside the buffer. */
  lemma {:induction false} ParsedWithin(buf: seq<Byte>, offset: int)
    requires |buf| <= INT32_MAX && ParseAt(buf, offset).Ok?
    ensures 0 <= offset && offset + SerializedSize(ParseAt(buf, offset).value) <= |buf|
  {
    ParsedIsSerialized(buf, offset);
  }

  /** A record that does not parse fails the whole meta with its error. */
  lemma {:induction false} MetaRecordFails(buf: seq<Byte>, offset: int, kv: Result<KeyValue>)
    requires kv == Parse(Some(buf), offset) && kv.Err?
    ensures Err(kv.error) == ParseMetaAt(buf, offset)
  {
    MetaAtFails(buf, offset);
  }

  /** A record that parses lies inside the buffer. */
  lemma {:induction false} MetaRecordWithin(buf: seq<Byte>, offset: int, kv: KeyValue)
    requires |buf| <= INT32_MAX && Parse(Some(buf), offset) == Ok(kv)
    ensures 0 <= offset && offset + SerializedSize(kv) <= |buf|
  {
    ParsedWithin(buf, offset);
  }

  /** After a record that parses, the meta is what the tail gives. */
  lemma {:induction false} MetaFromTail(buf: seq<Byte>, offset: int, kv: KeyValue, pos: int, r: Result<BlockMeta>)
    requires Parse(Some(buf), offset) == Ok(kv)
    requires pos == offset + SerializedSize(kv) && r == ParseMetaTail(buf, kv, pos)
    ensures r == ParseMetaAt(buf, offset)
  {
    MetaAtFromTail(buf, offset, kv);
  }

  /** `parseFrom` on an array reference, following the Java statement by statement. */
  method ParseFrom(buf: array?<Byte>, offset: int) returns (r: Result<BlockMeta>)
    requires IsInt32(offset)
    requires buf != null ==> buf.Length <= INT32_MAX
    ensures r == ParseMeta(Contents(buf), offset)
  {
    if buf == null {
      return Err(NullBuffer);
    }
    r := ParseFromArray(buf, offset);
  }

  /** `parseFrom` past the null check. */
  method ParseFromArray(buf: array<Byte>, offset: int) returns (r: Result<BlockMeta>)
    requires IsInt32(offset) && buf.Length <= INT32_MAX
    ensures r == ParseMetaAt(buf[..], offset)
  {
    var kv := KeyValues.ParseFrom(buf, offset);
    if kv.Err? {
      MetaRecordFails(buf[..], offset, kv);
      return Err(kv.error);
    }
    r := ParseAfterRecord(buf, offset, kv.value);
  }

  /** `parseFrom` once the record has been read. */
  method ParseAfterRecord(buf: array<Byte>, offset: int, kv: KeyValue) returns (r: Result<BlockMeta>)
    requires buf.Length <= INT32_MAX && Parse(Some(buf[..]), offset) == Ok(kv)
    ensures r == ParseMetaAt(buf[..], offset)
  {
    ghost var bytes := buf[..];
    MetaRecordWithin(bytes, offset, kv);
    var pos := offset + SerializedSize(kv);
    r := ParseTailFrom(buf, kv, pos);
    MetaFromTail(buf[..], offset, kv, pos, r);
  }

  /** The rest of `parseFrom` after the record. */
  method ParseTailFrom(buf: array<Byte>, kv: KeyValue, start: int) returns (r: Result<BlockMeta>)
    requires IsInt32(start) && buf.Length <= INT32_MAX
    ensures r == ParseMetaTail(buf[..], kv, start)
  {
    var pos := start;
    var offsetSlice := Slice(buf, pos, OFFSET_SIZE);
    if offsetSlice.Err? {
      return Err(offsetSlice.error);
    }
    var blockOffset := ToLong(offsetSlice.value);
    pos := pos + OFFSET_SIZE;
    var sizeSlice := Slice(buf, pos, SIZE_SIZE);
    if sizeSlice.Err? {
      return Err(sizeSlice.error);
    }
    var blockSize := ToLong(sizeSlice.value);
    pos := pos + SIZE_SIZE;
    var bfLenSlice := Slice(buf, pos, BF_LEN_SIZE);
    if bfLenSlice.Err? {
      return Err(bfLenSlice.error);
    }
    var bloomFilterSize := ToInt(bfLenSlice.value);
    DecodeInRange(bfLenSlice.value[..], 4);
    pos := pos + BF_LEN_SIZE;
    var bloomFilter := Slice(buf, pos, bloomFilterSize);
    if bloomFilter.Err? {
      return Err(bloomFilter.error);
    }
    pos := pos + bloomFilterSize;
    r := Ok(BlockMeta(kv, blockOffset, blockSize, bloomFilter.value[..]));
  }

  // ---------------------------------------------------------------------------
  // Order and equality
  // ---------------------------------------------------------------------------

  /** `compareTo`: the record order of the last records alone. */
  function MetaCompare(a: BlockMeta, b: BlockMeta): int
  {
    KvCompare(a.lastKv, b.lastKv)
  }

  /** `equals`: offset, size, last record (by its own equals) and filter contents. */
  predicate MetaEquals(a: BlockMeta, b: BlockMeta)
  {
    a.blockOffset == b.blockOffset && a.blockSize == b.blockSize
      && KvEquals(a.lastKv, b.lastKv) && a.bfBytes == b.bfBytes
  }

  /** Equal metas agree on every field except the value of the last record. */
  lemma {:induction false} MetaEqualsMeans(a: BlockMeta, b: BlockMeta)
    ensures MetaEquals(a, b) <==>
      a.blockOffset == b.blockOffset && a.blockSize == b.blockSize && a.bfBytes == b.bfBytes
      && a.lastKv.key == b.lastKv.key && a.lastKv.sequenceId == b.lastKv.sequenceId
      && a.lastKv.op == b.lastKv.op
  {
    EqualsIgnoresValue(a.lastKv, b.lastKv);
  }

  /** The order is consistent with equality one way: equal metas compare as 0 (not conversely). */
  lemma {:induction false} MetaEqualsCompare(a: BlockMeta, b: BlockMeta)
    ensures MetaEquals(a, b) ==> MetaCompare(a, b) == 0
    ensures MetaCompare(a, b) == 0 && a.blockOffset != b.blockOffset ==> !MetaEquals(a, b)
  {
  }

  /** A seek dummy compares with any meta exactly as its record compares with that meta's last record. */
  lemma {:induction false} SeekDummyOrder(kv: KeyValue, m: BlockMeta)
    ensures MetaCompare(CreateSeekDummy(kv), m) == KvCompare(kv, m.lastKv)
    ensures MetaEquals(CreateSeekDummy(kv), m) <==>
      m.blockOffset == 0 && m.blockSize == 0 && m.bfBytes == [] && KvEquals(kv, m.lastKv)
  {
  }
}
