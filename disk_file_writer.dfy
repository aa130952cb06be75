/**
 * The SSTable writer.  Records are appended to a block writer; when the
 * next record would take the block to the 2 MiB limit the block is
 * serialised to the output stream and its meta (last record, offset,
 * length, Bloom filter bytes) joins the index writer.  The finished file is
 *
 *   block ... block | index (the metas' bytes) | trailer (36 bytes)
 *
 * which is exactly what `open` parses back.  The output stream is the byte
 * sequence `out`, appended to.
 */
module DiskFileWriters {
  import opened Wrappers
  import opened ByteUtils
  import opened KeyValues
  import opened BloomFilters
  import opened Blocks
  import opened BlockMetas
  import opened KeyValueFilters
  import opened BlockReaders
  import opened DiskFiles

  // ---------------------------------------------------------------------------
  // The index
  // ---------------------------------------------------------------------------

  predicate AllMetaValid(ms: seq<BlockMeta>)
  {
    forall i | 0 <= i < |ms| :: MetaValid(ms[i])
  }

  /** The sum of the metas' serialised sizes, which `totalBytes` accumulates. */
  function IndexSize(ms: seq<BlockMeta>): nat
  {
    if ms == [] then 0 else IndexSize(ms[..|ms| - 1]) + MetaSize(ms[|ms| - 1])
  }

  /** The metas' `toBytes()` one after the other. */
  function IndexBytes(ms: seq<BlockMeta>): seq<Byte>
  {
    if ms == [] then [] else IndexBytes(ms[..|ms| - 1]) + MetaBytes(ms[|ms| - 1])
  }

  lemma {:induction false} IndexBytesLength(ms: seq<BlockMeta>)
    ensures |IndexBytes(ms)| == IndexSize(ms)
  {
    if ms != [] {
      IndexBytesLength(ms[..|ms| - 1]);
      MetaBytesLength(ms[|ms| - 1]);
    }
  }

  lemma {:induction false} IndexSnoc(ms: seq<BlockMeta>, m: BlockMeta)
    ensures IndexSize(ms + [m]) == IndexSize(ms) + MetaSize(m)
    ensures IndexBytes(ms + [m]) == IndexBytes(ms) + MetaBytes(m)
  {
    assert (ms + [m])[..|ms|] == ms;
  }

  lemma {:induction false} AllMetaValidSnoc(ms: seq<BlockMeta>, m: BlockMeta)
    requires AllMetaValid(ms) && MetaValid(m)
    ensures AllMetaValid(ms + [m])
  {
    assert forall i | 0 <= i < |ms| :: (ms + [m])[i] == ms[i];
  }

  /** Read from the front, the index is the first meta's bytes, then the rest's. */
  lemma {:induction false} IndexFront(ms: seq<BlockMeta>)
    requires ms != []
    ensures IndexBytes(ms) == MetaBytes(ms[0]) + IndexBytes(ms[1..])
    ensures IndexSize(ms) == MetaSize(ms[0]) + IndexSize(ms[1..])
  {
    IndexBytesFront(ms);
    IndexBytesLength(ms);
    IndexBytesLength(ms[1..]);
    MetaBytesLength(ms[0]);
  }

  /** The bytes half of `IndexFront`. */
  lemma {:induction false} IndexBytesFront(ms: seq<BlockMeta>)
    requires ms != []
    ensures IndexBytes(ms) == MetaBytes(ms[0]) + IndexBytes(ms[1..])
    decreases |ms|
  {
    var n := |ms|;
    if n > 1 {
      var init, last := ms[..n - 1], ms[n - 1];
      IndexBytesFront(init);
      IndexBytesLast(ms, init, last);
      assert init[1..] == ms[1..][..n - 2];
      IndexBytesLast(ms[1..], init[1..], last);
      AppendAssoc(MetaBytes(ms[0]), IndexBytes(init[1..]), MetaBytes(last));
    } else {
      assert ms[1..] == [] && ms[..0] == [];
    }
  }

  /** The index bytes of a non-empty sequence, given its prefix and last meta. */
  lemma {:induction false} IndexBytesLast(ms: seq<BlockMeta>, init: seq<BlockMeta>, last: BlockMeta)
    requires ms != [] && init == ms[..|ms| - 1] && last == ms[|ms| - 1]
    ensures IndexBytes(ms) == IndexBytes(init) + MetaBytes(last)
  {
  }

  /** Every meta of a valid index takes up at least one byte. */
  lemma {:induction false} IndexSizeBounds(ms: seq<BlockMeta>)
    ensures ms != [] ==> IndexSize(ms) > 0
    decreases |ms|
  {
    if ms != [] {
      IndexSizeBounds(ms[..|ms| - 1]);
      SerializeLength(ms[|ms| - 1].lastKv);
    }
  }

  /**
   * `BlockIndexWriter`.  `totalBytes` holds the exact sum of the metas'
   * sizes; the Java `int` field wraps, and the wrapped value is the length
   * `serialize()` allocates.
   */
  class BlockIndexWriter {
    var blockMetas: seq<BlockMeta>
    var totalBytes: int

    predicate Valid()
      reads this
    {
      AllMetaValid(blockMetas) && totalBytes == IndexSize(blockMetas)
    }

    constructor()
      ensures Valid() && blockMetas == []
    {
      blockMetas := [];
      totalBytes := 0;
    }

    /** `append(lastKv, offset, size, bloomFilter)`: one more meta at the end of the index. */
    method Append(lastKv: KeyValue, offset: int, size: int, bloomFilter: seq<Byte>)
      requires Valid() && MetaValid(BlockMeta(lastKv, offset, size, bloomFilter))
      modifies this
      ensures Valid() && blockMetas == old(blockMetas) + [BlockMeta(lastKv, offset, size, bloomFilter)]
    {
      var blockMeta := BlockMeta(lastKv, offset, size, bloomFilter);
      IndexSnoc(blockMetas, blockMeta);
      AllMetaValidSnoc(blockMetas, blockMeta);
      blockMetas := blockMetas + [blockMeta];
      totalBytes := totalBytes + MetaSize(blockMeta);
    }

    /**
     * `serialize()`: the metas' bytes in append order.  A total past the
     * `int` range allocates a negative or too short buffer, and the
     * allocation or a copy fails.
     */
    method Serialize() returns (r: Result<array<Byte>>)
      requires Valid()
      ensures r.Ok? <==> IndexSize(blockMetas) <= INT32_MAX
      ensures r.Ok? ==> fresh(r.value) && r.value[..] == IndexBytes(blockMetas)
      ensures r.Err? ==> r.error == (if Wrap32(totalBytes) < 0 then NegativeArraySize else IndexOutOfBounds)
    {
      var n := Wrap32(totalBytes);
      if n < 0 {
        IndexSizeBounds(blockMetas);
        Wrap32Identity(totalBytes);
        return Err(NegativeArraySize);
      }
      var buffer := new Byte[n];
      var copied := WriteMetas(blockMetas, buffer);
      IndexSizeBounds(blockMetas);
      Wrap32Identity(totalBytes);
      if !copied {
        return Err(IndexOutOfBounds);
      }
      IndexBytesLength(blockMetas);
      assert buffer[..] == buffer[..IndexSize(blockMetas)];
      r := Ok(buffer);
    }
  }

  /**
   * The loop of `serialize()`: each meta's bytes copied at the cursor.  A
   * copy that would run past the buffer fails, as `System.arraycopy` does.
   */
  method WriteMetas(ms: seq<BlockMeta>, buffer: array<Byte>) returns (copied: bool)
    requires AllMetaValid(ms)
    modifies buffer
    ensures copied <==> IndexSize(ms) <= buffer.Length
    ensures copied ==> buffer[..IndexSize(ms)] == IndexBytes(ms)
  {
    var pos := 0;
    EmptyPrefix(buffer);
    for i := 0 to |ms|
      invariant pos == IndexSize(ms[..i]) <= buffer.Length
      invariant buffer[..pos] == IndexBytes(ms[..i])
    {
      var metaBytes := BlockMetas.ToBytes(ms[i]);
      MetaStep(ms, i);
      if pos + metaBytes.Length > buffer.Length {
        PrefixBelow(ms, i + 1);
        return false;
      }
      CopyAt(metaBytes[..], buffer, pos, IndexBytes(ms[..i]));
      pos := pos + metaBytes.Length;
    }
    assert ms[..|ms|] == ms;
    copied := true;
  }

  /** The cursor and the bytes written after one more meta of the loop. */
  lemma {:induction false} MetaStep(ms: seq<BlockMeta>, i: int)
    requires 0 <= i < |ms|
    ensures IndexSize(ms[..i + 1]) == IndexSize(ms[..i]) + |MetaBytes(ms[i])|
    ensures IndexBytes(ms[..i + 1]) == IndexBytes(ms[..i]) + MetaBytes(ms[i])
  {
    assert ms[..i + 1] == ms[..i] + [ms[i]];
    IndexSnoc(ms[..i], ms[i]);
    MetaBytesLength(ms[i]);
  }

  /** A prefix of the metas takes no more room than all of them. */
  lemma {:induction false} PrefixBelow(ms: seq<BlockMeta>, i: int)
    requires 0 <= i <= |ms|
    ensures IndexSize(ms[..i]) <= IndexSize(ms)
    decreases |ms| - i
  {
    if i < |ms| {
      PrefixBelow(ms, i + 1);
      MetaStep(ms, i);
      SerializeLength(ms[i].lastKv);
    } else {
      assert ms[..i] == ms;
    }
  }

  // ---------------------------------------------------------------------------
  // The index read back
  // ---------------------------------------------------------------------------

  /** A meta above every meta of a sorted set goes at its end. */
  lemma {:induction false} InsertMetaGreatest(ms: seq<BlockMeta>, m: BlockMeta)
    requires MetasSorted(ms + [m])
    ensures InsertMeta(ms, m) == ms + [m]
    decreases |ms|
  {
    if ms != [] {
      assert (ms + [m])[0] == ms[0] && (ms + [m])[|ms|] == m;
      KvAntisymmetric(ms[0].lastKv, m.lastKv);
      assert ms[1..] + [m] == (ms + [m])[1..];
      SortedTail(ms + [m]);
      InsertMetaGreatest(ms[1..], m);
      assert [ms[0]] + (ms[1..] + [m]) == ms + [m];
    }
  }

  /**
   * The first meta of an index serialised at `offset` up to the end of the
   * buffer parses there, and the rest of the index follows it.
   */
  lemma {:induction false} FirstMetaParses(parse: int -> Result<BlockMeta>, buf: seq<Byte>, offset: int, ms: seq<BlockMeta>)
    requires forall o {:trigger ParseMetaAt(buf, o)} :: ParseMetaAt(buf, o) == parse(o)
    requires |buf| <= INT32_MAX && AllMetaValid(ms) && ms != []
    requires 0 <= offset <= |buf| && buf[offset..] == IndexBytes(ms)
    ensures parse(offset) == Ok(ms[0])
    ensures offset + MetaSize(ms[0]) <= |buf| && buf[offset + MetaSize(ms[0])..] == IndexBytes(ms[1..])
    ensures AllMetaValid(ms[1..])
  {
    var m, rest := ms[0], ms[1..];
    IndexFront(ms);
    MetaBytesLength(m);
    assert MetaValid(m);
    assert buf == buf[..offset] + MetaBytes(m) + IndexBytes(rest) by {
      assert buf == buf[..offset] + buf[offset..];
    }
    MetaParseSerialize(m, buf[..offset], IndexBytes(rest));
    assert forall i | 0 <= i < |rest| :: rest[i] == ms[i + 1];
  }

  /**
   * The loop of `open` over the bytes of strictly increasing metas, from
   * `offset` to the end of the buffer, adds those metas after the ones
   * already in the set.
   */
  lemma {:induction false} IndexParses(parse: int -> Result<BlockMeta>, buf: seq<Byte>, offset: int,
                                       acc: seq<BlockMeta>, ms: seq<BlockMeta>)
    requires forall o {:trigger ParseMetaAt(buf, o)} :: ParseMetaAt(buf, o) == parse(o)
    requires |buf| <= INT32_MAX && AllMetaValid(ms) && ms != []
    requires 0 <= offset <= |buf| && buf[offset..] == IndexBytes(ms)
    requires MetasSorted(acc + ms)
    ensures ParseIndex(parse, |buf|, offset, acc) == (acc + ms, None)
    decreases |ms|
  {
    var m, rest := ms[0], ms[1..];
    FirstMetaParses(parse, buf, offset, ms);
    SortedStep(acc, ms);
    var next := offset + MetaSize(m);
    IndexBytesLength(rest);
    if rest == [] {
      assert next == |buf|;
      IndexParsesLast(parse, |buf|, offset, acc, m);
    } else {
      IndexSizeBounds(rest);
      IndexParses(parse, buf, next, acc + [m], rest);
      IndexParsesMore(parse, |buf|, offset, acc, m, (acc + [m]) + rest);
    }
  }

  /** The loop's last turn: the greatest meta joins the set and the loop stops. */
  lemma {:induction false} IndexParsesLast(parse: int -> Result<BlockMeta>, size: int, offset: int,
                                           acc: seq<BlockMeta>, m: BlockMeta)
    requires parse(offset) == Ok(m) && offset + MetaSize(m) >= size && MetasSorted(acc + [m])
    ensures ParseIndex(parse, size, offset, acc) == (acc + [m], None)
  {
    ParseIndexStep(parse, size, offset, acc, m);
    InsertMetaGreatest(acc, m);
  }

  /** A turn of the loop that goes on: the greatest meta so far joins the set. */
  lemma {:induction false} IndexParsesMore(parse: int -> Result<BlockMeta>, size: int, offset: int,
                                           acc: seq<BlockMeta>, m: BlockMeta, result: seq<BlockMeta>)
    requires parse(offset) == Ok(m) && offset + MetaSize(m) < size && MetasSorted(acc + [m])
    requires ParseIndex(parse, size, offset + MetaSize(m), acc + [m]) == (result, None)
    ensures ParseIndex(parse, size, offset, acc) == (result, None)
  {
    ParseIndexStep(parse, size, offset, acc, m);
    InsertMetaGreatest(acc, m);
  }

  /** The whole index of strictly increasing metas parses back into them. */
  lemma {:induction false} IndexRoundTrip(ms: seq<BlockMeta>)
    requires AllMetaValid(ms) && ms != [] && MetasSorted(ms)
    requires IndexSize(ms) <= INT32_MAX
    ensures ParseIndex(MetaAt(IndexBytes(ms)), |IndexBytes(ms)|, 0, []) == (ms, None)
  {
    var buf := IndexBytes(ms);
    IndexBytesLength(ms);
    forall o ensures ParseMetaAt(buf, o) == MetaAt(buf)(o) {
    }
    assert [] + ms == ms;
    IndexParses(MetaAt(buf), buf, 0, [], ms);
  }

  /** Moving the first of the metas still to come over to the set keeps the order. */
  lemma {:induction false} SortedStep(acc: seq<BlockMeta>, ms: seq<BlockMeta>)
    requires MetasSorted(acc + ms) && ms != []
    ensures MetasSorted(acc + [ms[0]])
    ensures acc + ms == (acc + [ms[0]]) + ms[1..]
    ensures ms[1..] == [] ==> acc + ms == acc + [ms[0]]
  {
    MetasSortedPrefix(acc + ms, |acc| + 1);
    assert (acc + ms)[..|acc| + 1] == acc + [ms[0]];
    assert ms == [ms[0]] + ms[1..];
  }

  /** A prefix of a sorted set is sorted. */
  lemma {:induction false} MetasSortedPrefix(ms: seq<BlockMeta>, n: int)
    requires MetasSorted(ms) && 0 <= n <= |ms|
    ensures MetasSorted(ms[..n])
  {
    assert forall i | 0 <= i < n :: ms[..n][i] == ms[i];
  }

  // ---------------------------------------------------------------------------
  // The writer, as values
  // ---------------------------------------------------------------------------

  /** `getBloomFilter()` of a block writer holding `kvs`: the filter of their keys. */
  function BlockBloom(kvs: seq<KeyValue>): Result<seq<Byte>>
  {
    var g :- GenerateBits(BLOOM_FILTER_HASH_COUNT, BLOOM_FILTER_HASH_COUNT, Keys(kvs));
    Ok(g.1)
  }

  /** `size()` of a block writer holding `kvs`: count, records, checksum. */
  function BlockSize(kvs: seq<KeyValue>): int
  {
    KV_SIZE_LEN + TotalSize(kvs) + CHECKSUM_LEN
  }

  /** A block writer's records: each one a Java record, and all of them under the block limit. */
  predicate BlockFits(kvs: seq<KeyValue>)
  {
    AllValid(kvs) && BlockSize(kvs) < BLOCK_SIZE_UP_LIMIT
  }

  /** `append`'s assertion that a record fits in a block of its own, in exact arithmetic. */
  predicate RecordFits(kv: KeyValue)
  {
    SerializedSize(kv) + KV_SIZE_LEN + CHECKSUM_LEN < BLOCK_SIZE_UP_LIMIT
  }

  /**
   * Where the exact sum of `RecordFits` and Java's int sum part: every record
   * the exact check accepts passes Java's assertion too, and the records
   * Java's wrapped sum lets through besides are exactly those of serialized
   * size above `Integer.MAX_VALUE - 8`, about 2 GiB.
   */
  lemma {:induction false} RecordFitsAsJava(kv: KeyValue)
    requires KeyValues.Valid(kv)
    ensures RecordFits(kv) ==> Wrap32(SerializedSize(kv) + KV_SIZE_LEN + CHECKSUM_LEN) < BLOCK_SIZE_UP_LIMIT
    ensures (!RecordFits(kv) && Wrap32(SerializedSize(kv) + KV_SIZE_LEN + CHECKSUM_LEN) < BLOCK_SIZE_UP_LIMIT)
            <==> SerializedSize(kv) > INT32_MAX - 8
  {
    var sum := SerializedSize(kv) + KV_SIZE_LEN + CHECKSUM_LEN;
    if sum > INT32_MAX {
      Wrap32Over(sum);
    } else {
      Wrap32Identity(sum);
    }
  }

  /**
   * The fields of a `DiskFileWriter`: the bytes written to the output
   * stream, the write offset, the index writer's metas, the current block
   * writer's records, and the trailer fields.
   */
  datatype WriterState = WriterState(out: seq<Byte>, currentOffset: int, metas: seq<BlockMeta>, current: seq<KeyValue>,
                                     fileSize: int, blockCount: int, blockIndexOffset: int, blockIndexSize: int)

  /** A new writer over an empty file. */
  function NewWriter(): WriterState
  {
    WriterState([], 0, [], [], 0, 0, 0, 0)
  }

  /**
   * `switchNextBlockWriter()`: the current block is written out and its
   * meta (last record, offset, length, filter) joins the index; a new block
   * begins.  `currentOffset` is a Java `long` and `blockCount` an `int`.
   */
  function SwitchStep(s: WriterState): Result<WriterState>
    requires s.current != []
  {
    var bf :- BlockBloom(s.current);
    Ok(Switched(s, BlockBytes(s.current), bf))
  }

  /** The fields after the block bytes `buffer` with filter `bf` are written out. */
  function Switched(s: WriterState, buffer: seq<Byte>, bf: seq<Byte>): WriterState
    requires s.current != []
  {
    s.(out := s.out + buffer,
       metas := s.metas + [BlockMeta(s.current[|s.current| - 1], s.currentOffset, |buffer|, bf)],
       currentOffset := Wrap64(s.currentOffset + |buffer|),
       blockCount := Wrap32(s.blockCount + 1),
       current := [])
  }

  /**
   * `append(kv)`: null is ignored; a record that cannot fit in a block of
   * its own fails the assertion; a record that would take a non-empty block
   * to the limit goes to a new block after the current one is written out.
   */
  function AppendStep(s: WriterState, kv: Option<KeyValue>): Result<WriterState>
  {
    match kv
    case None => Ok(s)
    case Some(kv) =>
      if !RecordFits(kv) then Err(AssertionFailed)
      else if s.current != [] && SerializedSize(kv) + BlockSize(s.current) >= BLOCK_SIZE_UP_LIMIT then
        var t :- SwitchStep(s);
        Ok(t.(current := [kv]))
      else Ok(s.(current := s.current + [kv]))
  }

  /** A record that fits joins the current block. */
  lemma {:induction false} AppendInPlace(s: WriterState, kv: KeyValue)
    requires RecordFits(kv)
    requires s.current == [] || SerializedSize(kv) + BlockSize(s.current) < BLOCK_SIZE_UP_LIMIT
    ensures AppendStep(s, Some(kv)) == Ok(s.(current := s.current + [kv]))
  {
  }

  /** A record that does not fit writes the current block out and begins the next one. */
  lemma {:induction false} AppendSwitching(s: WriterState, kv: KeyValue)
    requires RecordFits(kv)
    requires s.current != [] && SerializedSize(kv) + BlockSize(s.current) >= BLOCK_SIZE_UP_LIMIT
    ensures SwitchStep(s).Err? ==> AppendStep(s, Some(kv)) == Err(SwitchStep(s).error)
    ensures SwitchStep(s).Ok? ==> AppendStep(s, Some(kv)) == Ok(SwitchStep(s).value.(current := [kv]))
  {
  }

  /**
   * `appendIndex()`: a non-empty current block is written out first; then
   * the index follows the blocks, and its offset and length are kept for
   * the trailer.
   */
  function AppendIndexStep(s: WriterState): Result<WriterState>
  {
    var t :- FlushStep(s);
    IndexStep(t)
  }

  /** The first part of `appendIndex()`: the current block is written out unless it is empty. */
  function FlushStep(s: WriterState): Result<WriterState>
  {
    if s.current != [] then SwitchStep(s) else Ok(s)
  }

  /** The second part: the index bytes follow the blocks. */
  function IndexStep(t: WriterState): Result<WriterState>
  {
    var index :- SerializedIndex(t.metas);
    Ok(IndexWritten(t, index))
  }

  /**
   * `BlockIndexWriter.serialize()`: the metas' bytes, when their total fits
   * in a Java `int`; past that the wrapped total is a negative or too short
   * buffer length.
   */
  function SerializedIndex(ms: seq<BlockMeta>): Result<seq<Byte>>
  {
    if IndexSize(ms) > INT32_MAX then
      Err(if Wrap32(IndexSize(ms)) < 0 then NegativeArraySize else IndexOutOfBounds)
    else
      Ok(IndexBytes(ms))
  }

  /** The fields once the index bytes `index` follow the blocks. */
  function IndexWritten(t: WriterState, index: seq<Byte>): WriterState
  {
    t.(blockIndexOffset := t.currentOffset, blockIndexSize := |index|, out := t.out + index,
       currentOffset := Wrap64(t.currentOffset + |index|))
  }

  /** `appendTrailer()`: file size, block count, index offset, index size and magic. */
  function AppendTrailerStep(s: WriterState): WriterState
  {
    var fileSize := Wrap64(s.currentOffset + TRAILER_SIZE);
    s.(fileSize := fileSize,
       out := s.out + TrailerBytes(Trailer(fileSize, s.blockCount, s.blockIndexOffset, s.blockIndexSize)))
  }

  /** The records appended one by one. */
  function AppendAll(s: WriterState, kvs: seq<KeyValue>): Result<WriterState>
    decreases |kvs|
  {
    if kvs == [] then Ok(s)
    else
      var t :- AppendStep(s, Some(kvs[0]));
      AppendAll(t, kvs[1..])
  }

  /** The file a new writer leaves after the records, the index and the trailer. */
  function WriteFile(kvs: seq<KeyValue>): Result<seq<Byte>>
  {
    var s :- AppendAll(NewWriter(), kvs);
    var t :- AppendIndexStep(s);
    Ok(AppendTrailerStep(t).out)
  }

  // ---------------------------------------------------------------------------
  // The writer object
  // ---------------------------------------------------------------------------

  /** `DiskFileWriter`, writing to the byte sequence `out`. */
  class DiskFileWriter {
    const fileName: string
    var currentOffset: int
    var indexWriter: BlockIndexWriter
    var currentWriter: BlockWriter
    var out: seq<Byte>
    var fileSize: int
    var blockCount: int
    var blockIndexOffset: int
    var blockIndexSize: int

    ghost function State(): WriterState
      reads this, indexWriter, currentWriter
    {
      WriterState(out, currentOffset, indexWriter.blockMetas, currentWriter.kvBuf,
                  fileSize, blockCount, blockIndexOffset, blockIndexSize)
    }

    /** The writers agree with their fields, the current block is under the limit, the counters in range. */
    predicate Valid()
      reads this, indexWriter, currentWriter, currentWriter.bloomFilter
    {
      indexWriter.Valid() && currentWriter.Valid() && BlockFits(currentWriter.kvBuf)
      && IsInt64(currentOffset) && IsInt32(blockCount) && IsInt64(blockIndexOffset) && IsInt64(blockIndexSize)
    }

    /** `DiskFileWriter(fileName)` over a new, empty file. */
    constructor(fileName: string)
      ensures Valid() && State() == NewWriter() && this.fileName == fileName
      ensures fresh(indexWriter) && fresh(currentWriter) && fresh(currentWriter.bloomFilter)
    {
      this.fileName := fileName;
      out := [];
      currentOffset := 0;
      indexWriter := new BlockIndexWriter();
      currentWriter := new BlockWriter();
      fileSize := 0;
      blockCount := 0;
      blockIndexOffset := 0;
      blockIndexSize := 0;
    }

    /** `switchNextBlockWriter()`. */
    method SwitchNextBlockWriter() returns (r: Result<()>)
      requires Valid() && currentWriter.kvBuf != []
      modifies this, currentWriter.bloomFilter, indexWriter
      ensures r.Ok? <==> SwitchStep(old(State())).Ok?
      ensures r.Err? ==> r.error == SwitchStep(old(State())).error
      ensures r.Ok? ==> Valid() && State() == SwitchStep(old(State())).value && fresh(currentWriter)
      ensures fileSize == old(fileSize) && blockIndexOffset == old(blockIndexOffset) && blockIndexSize == old(blockIndexSize)
      ensures indexWriter == old(indexWriter)
      ensures currentWriter == old(currentWriter) || (fresh(currentWriter) && fresh(currentWriter.bloomFilter))
    {
      ghost var pre := State();
      var lastKv, size := WriteBlock();
      r := FinishSwitch(pre, lastKv, size);
    }

    /** The rest of `switchNextBlockWriter()` once the block's bytes are out: its meta joins the index. */
    method FinishSwitch(ghost pre: WriterState, lastKv: KeyValue, size: int) returns (r: Result<()>)
      requires Valid() && pre.current != [] && State() == pre.(out := pre.out + BlockBytes(pre.current))
      requires lastKv == pre.current[|pre.current| - 1] && size == |BlockBytes(pre.current)|
      modifies this, currentWriter.bloomFilter, indexWriter
      ensures r.Ok? <==> SwitchStep(pre).Ok?
      ensures r.Err? ==> r.error == SwitchStep(pre).error
      ensures r.Ok? ==> Valid() && State() == SwitchStep(pre).value && fresh(currentWriter)
      ensures fileSize == old(fileSize) && blockIndexOffset == old(blockIndexOffset) && blockIndexSize == old(blockIndexSize)
      ensures indexWriter == old(indexWriter)
      ensures currentWriter == old(currentWriter) || (fresh(currentWriter) && fresh(currentWriter.bloomFilter))
    {
      var offset, count := currentOffset, blockCount;
      var bf := BlockFilter(currentWriter);
      SwitchStepOf(pre, bf);
      if bf.Err? {
        return Err(bf.error);
      }
      SwitchedMetaValid(pre.current, pre.currentOffset, bf.value);
      AddBlockMeta(lastKv, size, bf.value, offset, count);
      SwitchedIs(pre, BlockBytes(pre.current), bf.value, out, indexWriter.blockMetas, offset, size, currentOffset, count, blockCount);
      r := Ok(());
    }

    /** The first half of `switchNextBlockWriter()`: the block's bytes go to the output stream. */
    method WriteBlock() returns (lastKv: KeyValue, size: int)
      requires Valid() && currentWriter.kvBuf != []
      modifies this`out
      ensures Valid() && out == old(out) + BlockBytes(currentWriter.kvBuf)
      ensures lastKv == currentWriter.kvBuf[|currentWriter.kvBuf| - 1] && size == |BlockBytes(currentWriter.kvBuf)|
    {
      var last := currentWriter.GetLastKv();
      var buffer := currentWriter.Serialize();
      out := out + buffer[..];
      lastKv, size := last.value, buffer.Length;
    }

    /** The second half: the block's meta joins the index, the counters move on, a new block begins. */
    method AddBlockMeta(lastKv: KeyValue, size: int, bf: seq<Byte>, offset: int, count: int)
      requires offset == currentOffset && count == blockCount
      requires indexWriter.Valid() && IsInt64(currentOffset) && IsInt32(blockCount)
      requires IsInt64(blockIndexOffset) && IsInt64(blockIndexSize)
      requires MetaValid(BlockMeta(lastKv, currentOffset, size, bf))
      modifies this`currentOffset, this`blockCount, this`currentWriter, indexWriter
      ensures Valid() && fresh(currentWriter) && fresh(currentWriter.bloomFilter) && currentWriter.kvBuf == []
      ensures indexWriter == old(indexWriter)
      ensures indexWriter.blockMetas == old(indexWriter.blockMetas) + [BlockMeta(lastKv, offset, size, bf)]
      ensures currentOffset == Wrap64(offset + size) && blockCount == Wrap32(count + 1)
    {
      indexWriter.Append(lastKv, currentOffset, size, bf);
      Wrap64Identity(offset + size);
      Wrap32Identity(count + 1);
      currentOffset, blockCount := Wrap64(offset + size), Wrap32(count + 1);
      currentWriter := new BlockWriter();
    }

    /** `append(kv)`, with null as `None`. */
    method Append(kv: Option<KeyValue>) returns (r: Result<()>)
      requires Valid() && (kv.Some? ==> KeyValues.Valid(kv.value))
      modifies this, currentWriter, currentWriter.bloomFilter, indexWriter
      ensures r.Ok? <==> AppendStep(old(State()), kv).Ok?
      ensures r.Err? ==> r.error == AppendStep(old(State()), kv).error
      ensures r.Ok? ==> Valid() && State() == AppendStep(old(State()), kv).value
      ensures indexWriter == old(indexWriter)
      ensures currentWriter == old(currentWriter) || (fresh(currentWriter) && fresh(currentWriter.bloomFilter))
      ensures currentWriter.bloomFilter == old(currentWriter.bloomFilter) || fresh(currentWriter.bloomFilter)
    {
      if kv.None? {
        return Ok(());
      }
      var record := kv.value;
      if !(SerializedSize(record) + KV_SIZE_LEN + CHECKSUM_LEN < BLOCK_SIZE_UP_LIMIT) {
        return Err(AssertionFailed);
      }
      r := AppendRecord(record);
    }

    /** The part of `append` past the null and size checks: switch blocks if the record would overflow this one. */
    method AppendRecord(record: KeyValue) returns (r: Result<()>)
      requires Valid() && KeyValues.Valid(record) && RecordFits(record)
      modifies this, currentWriter, currentWriter.bloomFilter, indexWriter
      ensures r.Ok? <==> AppendStep(old(State()), Some(record)).Ok?
      ensures r.Err? ==> r.error == AppendStep(old(State()), Some(record)).error
      ensures r.Ok? ==> Valid() && State() == AppendStep(old(State()), Some(record)).value
      ensures indexWriter == old(indexWriter)
      ensures currentWriter == old(currentWriter) || (fresh(currentWriter) && fresh(currentWriter.bloomFilter))
      ensures currentWriter.bloomFilter == old(currentWriter.bloomFilter) || fresh(currentWriter.bloomFilter)
    {
      var count := currentWriter.GetKvCount();
      var size := currentWriter.Size();
      BlockBytesLength(currentWriter.kvBuf);
      if count > 0 && SerializedSize(record) + size >= BLOCK_SIZE_UP_LIMIT {
        r := SwitchThenAppend(record);
      } else {
        AppendInPlace(State(), record);
        AppendToBlock(record);
        r := Ok(());
      }
    }

    /** The record would overflow the current block: that block is written out and the record begins the next. */
    method SwitchThenAppend(record: KeyValue) returns (r: Result<()>)
      requires Valid() && KeyValues.Valid(record) && RecordFits(record)
      requires currentWriter.kvBuf != [] && SerializedSize(record) + BlockSize(currentWriter.kvBuf) >= BLOCK_SIZE_UP_LIMIT
      modifies this, currentWriter.bloomFilter, indexWriter
      ensures r.Ok? <==> AppendStep(old(State()), Some(record)).Ok?
      ensures r.Err? ==> r.error == AppendStep(old(State()), Some(record)).error
      ensures r.Ok? ==> Valid() && State() == AppendStep(old(State()), Some(record)).value
      ensures indexWriter == old(indexWriter)
      ensures currentWriter == old(currentWriter) || (fresh(currentWriter) && fresh(currentWriter.bloomFilter))
      ensures currentWriter.bloomFilter == old(currentWriter.bloomFilter) || fresh(currentWriter.bloomFilter)
    {
      AppendSwitching(State(), record);
      var switched := SwitchNextBlockWriter();
      if switched.Err? {
        return Err(switched.error);
      }
      AppendToBlock(record);
      r := Ok(());
    }

    /** The record joins the current block, which stays under the limit. */
    method AppendToBlock(record: KeyValue)
      requires Valid() && KeyValues.Valid(record) && RecordFits(record)
      requires currentWriter.kvBuf == [] || SerializedSize(record) + BlockSize(currentWriter.kvBuf) < BLOCK_SIZE_UP_LIMIT
      modifies currentWriter
      ensures Valid() && State() == old(State()).(current := old(State()).current + [record])
      ensures currentWriter.bloomFilter == old(currentWriter.bloomFilter)
    {
      AppendFits(currentWriter.kvBuf, record);
      currentWriter.Append(record);
    }

    /** `appendIndex()`. */
    method AppendIndex() returns (r: Result<()>)
      requires Valid()
      modifies this, currentWriter.bloomFilter, indexWriter
      ensures r.Ok? <==> AppendIndexStep(old(State())).Ok?
      ensures r.Err? ==> r.error == AppendIndexStep(old(State())).error
      ensures r.Ok? ==> Valid() && State() == AppendIndexStep(old(State())).value
      ensures indexWriter == old(indexWriter)
      ensures currentWriter == old(currentWriter) || (fresh(currentWriter) && fresh(currentWriter.bloomFilter))
      ensures currentWriter.bloomFilter == old(currentWriter.bloomFilter) || fresh(currentWriter.bloomFilter)
    {
      var count := currentWriter.GetKvCount();
      if count > 0 {
        r := FlushThenWriteIndex();
      } else {
        assert AppendIndexStep(State()) == IndexStep(State());
        r := WriteIndex();
      }
    }

    /** `appendIndex()` with records in the current block: that block is written out before the index. */
    method FlushThenWriteIndex() returns (r: Result<()>)
      requires Valid() && currentWriter.kvBuf != []
      modifies this, currentWriter.bloomFilter, indexWriter
      ensures r.Ok? <==> AppendIndexStep(old(State())).Ok?
      ensures r.Err? ==> r.error == AppendIndexStep(old(State())).error
      ensures r.Ok? ==> Valid() && State() == AppendIndexStep(old(State())).value
      ensures indexWriter == old(indexWriter)
      ensures currentWriter == old(currentWriter) || (fresh(currentWriter) && fresh(currentWriter.bloomFilter))
      ensures currentWriter.bloomFilter == old(currentWriter.bloomFilter) || fresh(currentWriter.bloomFilter)
    {
      AppendIndexAfterSwitch(State());
      var switched := SwitchNextBlockWriter();
      if switched.Err? {
        return Err(switched.error);
      }
      r := WriteIndex();
    }

    /** The second part of `appendIndex()`: the index writer's bytes go to the output stream. */
    method WriteIndex() returns (r: Result<()>)
      requires Valid()
      modifies this`out, this`currentOffset, this`blockIndexOffset, this`blockIndexSize
      ensures r.Ok? <==> IndexStep(old(State())).Ok?
      ensures r.Err? ==> r.error == IndexStep(old(State())).error
      ensures r.Ok? ==> Valid() && State() == IndexStep(old(State())).value
    {
      ghost var pre := State();
      var index := IndexOf(indexWriter);
      if index.Err? {
        return Err(index.error);
      }
      var offset := currentOffset;
      var next := offset + |index.value|;
      Wrap64Identity(next);
      IndexLengthFits(pre.metas, index.value);
      blockIndexOffset, blockIndexSize := offset, |index.value|;
      out := out + index.value;
      currentOffset := Wrap64(next);
      IndexWrittenIs(pre, index.value, out, offset, next, currentOffset);
      r := Ok(());
    }

    /** `appendTrailer()`: the five fields, each through the byte codec. */
    method AppendTrailer()
      requires Valid()
      modifies this`fileSize, this`out
      ensures Valid() && State() == AppendTrailerStep(old(State()))
    {
      ghost var pre := State();
      var size := Wrap64(currentOffset + TRAILER_SIZE);
      Wrap64Identity(currentOffset + TRAILER_SIZE);
      var trailer := TrailerOf(size, blockCount, blockIndexOffset, blockIndexSize);
      fileSize := size;
      out := out + trailer;
      TrailerAppended(pre, size, trailer, out);
    }
  }

  /** The five trailer fields, each through the byte codec, one after the other. */
  method TrailerOf(fileSize: int, blockCount: int, blockIndexOffset: int, blockIndexSize: int) returns (r: seq<Byte>)
    requires IsInt64(fileSize) && IsInt32(blockCount) && IsInt64(blockIndexOffset) && IsInt64(blockIndexSize)
    ensures r == TrailerBytes(Trailer(fileSize, blockCount, blockIndexOffset, blockIndexSize))
  {
    var a := ToBytesLong(fileSize);
    var b := ToBytesInt(blockCount);
    var c := ToBytesLong(blockIndexOffset);
    var d := ToBytesLong(blockIndexSize);
    var e := ToBytesLong(DISK_FILE_MAGIC);
    r := a[..] + b[..] + c[..] + d[..] + e[..];
  }

  /** The fields after the trailer is written are those `AppendTrailerStep` describes. */
  lemma {:induction false} TrailerAppended(pre: WriterState, size: int, trailer: seq<Byte>, out: seq<Byte>)
    requires size == Wrap64(pre.currentOffset + TRAILER_SIZE)
    requires trailer == TrailerBytes(Trailer(size, pre.blockCount, pre.blockIndexOffset, pre.blockIndexSize))
    requires out == pre.out + trailer
    ensures pre.(fileSize := size, out := out) == AppendTrailerStep(pre)
  {
  }

  /** `getBloomFilter()` of the block writer: the filter of its keys. */
  method BlockFilter(w: BlockWriter) returns (r: Result<seq<Byte>>)
    requires w.Valid()
    modifies w.bloomFilter
    ensures r == BlockBloom(w.kvBuf)
  {
    var bf := w.GetBloomFilter();
    if bf.Err? {
      return Err(bf.error);
    }
    r := Ok(bf.value[..]);
  }

  /** The fields after a block is written out are those `Switched` describes. */
  lemma {:induction false} SwitchedIs(pre: WriterState, block: seq<Byte>, bf: seq<Byte>, out: seq<Byte>, metas: seq<BlockMeta>,
                                      offset0: int, size: int, offset: int, count0: int, count: int)
    requires pre.current != []
    requires out == pre.out + block && size == |block| && offset0 == pre.currentOffset && count0 == pre.blockCount
    requires metas == pre.metas + [BlockMeta(pre.current[|pre.current| - 1], offset0, size, bf)]
    requires offset == Wrap64(offset0 + size) && count == Wrap32(count0 + 1)
    ensures WriterState(out, offset, metas, [], pre.fileSize, count, pre.blockIndexOffset, pre.blockIndexSize)
         == Switched(pre, block, bf)
  {
  }

  /** The switch fails exactly when the block's filter does, and otherwise writes that filter. */
  lemma {:induction false} SwitchStepOf(pre: WriterState, bf: Result<seq<Byte>>)
    requires pre.current != [] && bf == BlockBloom(pre.current)
    ensures bf.Err? ==> SwitchStep(pre) == Err(bf.error)
    ensures bf.Ok? ==> SwitchStep(pre) == Ok(Switched(pre, BlockBytes(pre.current), bf.value))
  {
  }

  /** With records in the current block, `appendIndex()` is the switch followed by the index. */
  lemma {:induction false} AppendIndexAfterSwitch(s: WriterState)
    requires s.current != []
    ensures SwitchStep(s).Err? ==> AppendIndexStep(s) == Err(SwitchStep(s).error)
    ensures SwitchStep(s).Ok? ==> AppendIndexStep(s) == IndexStep(SwitchStep(s).value)
  {
  }

  /** `serialize()` of the index writer, as bytes. */
  method IndexOf(w: BlockIndexWriter) returns (r: Result<seq<Byte>>)
    requires w.Valid()
    ensures r == SerializedIndex(w.blockMetas)
  {
    var buffer := w.Serialize();
    if buffer.Err? {
      IndexSizeBounds(w.blockMetas);
      Wrap32Identity(w.totalBytes);
      return Err(buffer.error);
    }
    r := Ok(buffer.value[..]);
  }

  /** A serialised index is as long as its recorded size, which is a Java `long`. */
  lemma {:induction false} IndexLengthFits(ms: seq<BlockMeta>, index: seq<Byte>)
    requires SerializedIndex(ms) == Ok(index)
    ensures |index| == IndexSize(ms) <= INT32_MAX && IsInt64(|index|)
  {
    IndexBytesLength(ms);
  }

  /** The fields after the index is written out are those `IndexWritten` describes. */
  lemma {:induction false} IndexWrittenIs(pre: WriterState, index: seq<Byte>, out: seq<Byte>, offset0: int, next: int, offset: int)
    requires out == pre.out + index && offset0 == pre.currentOffset && next == offset0 + |index| && offset == Wrap64(next)
    ensures WriterState(out, offset, pre.metas, pre.current, pre.fileSize, pre.blockCount, offset0, |index|)
         == IndexWritten(pre, index)
  {
  }

  /** The filter `getBloomFilter()` returned is the block's filter. */
  lemma {:induction false} BloomIs(kvs: seq<KeyValue>, bf: seq<Byte>)
    requires GenerateBits(BLOOM_FILTER_HASH_COUNT, BLOOM_FILTER_HASH_COUNT, Keys(kvs)).Ok?
    requires GenerateBits(BLOOM_FILTER_HASH_COUNT, BLOOM_FILTER_HASH_COUNT, Keys(kvs)).value.1 == bf
    ensures BlockBloom(kvs) == Ok(bf)
  {
  }

  lemma {:induction false} BloomFails(kvs: seq<KeyValue>)
    requires GenerateBits(BLOOM_FILTER_HASH_COUNT, BLOOM_FILTER_HASH_COUNT, Keys(kvs)).Err?
    ensures BlockBloom(kvs) == Err(IndexOutOfBounds)
  {
  }

  /** The meta of a block under the limit is one the index can hold. */
  lemma {:induction false} SwitchedMetaValid(kvs: seq<KeyValue>, offset: int, bf: seq<Byte>)
    requires BlockFits(kvs) && kvs != [] && IsInt64(offset)
    requires BlockBloom(kvs) == Ok(bf)
    ensures MetaValid(BlockMeta(kvs[|kvs| - 1], offset, |BlockBytes(kvs)|, bf))
  {
    BlockBytesLength(kvs);
    RecordsLength(kvs[..|kvs| - 1]);
    var g := GenerateBits(BLOOM_FILTER_HASH_COUNT, BLOOM_FILTER_HASH_COUNT, Keys(kvs)).value;
    assert |bf| * 8 <= INT32_MAX;
  }

  /** A record that passes `append`'s checks leaves the current block under the limit. */
  lemma {:induction false} AppendFits(kvs: seq<KeyValue>, kv: KeyValue)
    requires AllValid(kvs) && KeyValues.Valid(kv) && RecordFits(kv)
    requires kvs == [] || SerializedSize(kv) + BlockSize(kvs) < BLOCK_SIZE_UP_LIMIT
    ensures BlockFits(kvs + [kv])
  {
    AllValidSnoc(kvs, kv);
    TotalSizeSnoc(kvs, kv);
  }
}
