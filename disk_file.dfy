/**
 * `DiskFile`: an SSTable opened for reading.  The 36-byte trailer at the end
 * of the file locates the block index; `open` checks the trailer and parses
 * the index into a sorted set of block metas.  Blocks are read on demand,
 * and the file iterator walks the blocks a filter keeps, yielding the records
 * the filter's snapshot can see.  The file is its bytes: `RandomAccessFile`
 * is modelled by `Handle`.
 */
module DiskFiles {
  import opened Wrappers
  import opened ByteUtils
  import opened KeyValues
  import opened BlockMetas
  import opened Blocks
  import opened BlockReaders
  import opened KeyValueFilters

  const BLOCK_SIZE_UP_LIMIT: int := 1024 * 1024 * 2
  /** fileSize (8), blockCount (4), blockIndexOffset (8), blockIndexSize (8), magic (8). */
  const TRAILER_SIZE: int := 8 + 4 + 8 + 8 + 8
  const DISK_FILE_MAGIC: int := 0x19980825_DEAD10CC

  /** The field `in`: never opened (null), open on the file's bytes, or closed. */
  datatype Handle = Unopened | Opened(bytes: seq<Byte>) | Closed

  // ---------------------------------------------------------------------------
  // Reading the file
  // ---------------------------------------------------------------------------

  /**
   * `new byte[len]`, `seek(pos)`, `read(buffer)`, then `assert len ==
   * buffer.length`: the read comes back short (or with -1) when the file
   * ends before `pos + len`, and an empty buffer always reads 0 bytes.
   */
  function ReadAt(bytes: seq<Byte>, pos: int, len: int): (r: Result<seq<Byte>>)
    ensures r.Ok? ==> |r.value| == len
  {
    if len < 0 then Err(NegativeArraySize)
    else if pos < 0 then Err(NegativeSeek)
    else if len == 0 then Ok([])
    else if pos + len > |bytes| then Err(AssertionFailed)
    else Ok(bytes[pos..pos + len])
  }

  /** A read succeeds exactly on a range inside the file, and returns the bytes there. */
  lemma {:induction false} ReadAtMeans(bytes: seq<Byte>, pos: int, len: int)
    ensures ReadAt(bytes, pos, len).Ok? <==> 0 <= len && 0 <= pos && (len == 0 || pos + len <= |bytes|)
    ensures ReadAt(bytes, pos, len).Ok? && len > 0 ==> ReadAt(bytes, pos, len).value == bytes[pos..pos + len]
  {
  }

  /** The read into a fresh buffer. */
  method Read(bytes: seq<Byte>, pos: int, len: int) returns (r: Result<array<Byte>>)
    ensures r.Ok? <==> ReadAt(bytes, pos, len).Ok?
    ensures r.Ok? ==> fresh(r.value) && r.value[..] == ReadAt(bytes, pos, len).value
    ensures r.Err? ==> r.error == ReadAt(bytes, pos, len).error
  {
    if len < 0 {
      return Err(NegativeArraySize);
    }
    if pos < 0 {
      return Err(NegativeSeek);
    }
    if len > 0 && pos + len > |bytes| {
      return Err(AssertionFailed);
    }
    var buffer := new Byte[len](i requires 0 <= i < len => bytes[pos + i]);
    if len > 0 {
      assert buffer[..] == bytes[pos..pos + len];
    }
    return Ok(buffer);
  }

  /** A read the caller knows to lie inside the file. */
  method ReadExact(bytes: seq<Byte>, pos: int, len: int) returns (buffer: array<Byte>)
    requires 0 <= pos && 0 <= len && pos + len <= |bytes|
    ensures fresh(buffer) && buffer[..] == bytes[pos..pos + len]
  {
    buffer := new Byte[len](i requires 0 <= i < len => bytes[pos + i]);
    assert buffer[..] == bytes[pos..pos + len];
  }

  // ---------------------------------------------------------------------------
  // The trailer
  // ---------------------------------------------------------------------------

  /** The trailer's fields, the recorded file size included; the magic is checked separately. */
  datatype Trailer = Trailer(fileSize: int, blockCount: int, indexOffset: int, indexSize: int)

  /** The trailer `appendTrailer` writes. */
  function TrailerBytes(t: Trailer): seq<Byte>
  {
    EncodeInt64(t.fileSize) + EncodeInt32(t.blockCount) + EncodeInt64(t.indexOffset)
      + EncodeInt64(t.indexSize) + EncodeInt64(DISK_FILE_MAGIC)
  }

  /** The fields `open` reads from the last 36 bytes. */
  function ReadTrailer(tail: seq<Byte>): Trailer
    requires |tail| == TRAILER_SIZE
  {
    Trailer(DecodeInt64(tail[0..8]), DecodeInt32(tail[8..12]), DecodeInt64(tail[12..20]), DecodeInt64(tail[20..28]))
  }

  /** The magic number `open` reads from the last 8 bytes. */
  function MagicOf(tail: seq<Byte>): int
    requires |tail| == TRAILER_SIZE
  {
    DecodeInt64(tail[28..36])
  }

  /** A written trailer reads back as the same fields and the right magic. */
  lemma {:induction false} TrailerRoundTrip(t: Trailer)
    requires IsInt64(t.fileSize) && IsInt32(t.blockCount) && IsInt64(t.indexOffset) && IsInt64(t.indexSize)
    ensures |TrailerBytes(t)| == TRAILER_SIZE
    ensures ReadTrailer(TrailerBytes(t)) == t && MagicOf(TrailerBytes(t)) == DISK_FILE_MAGIC
  {
    Int64RoundTrip(t.fileSize);
    Int32RoundTrip(t.blockCount);
    Int64RoundTrip(t.indexOffset);
    Int64RoundTrip(t.indexSize);
    Int64RoundTrip(DISK_FILE_MAGIC);
    var b := TrailerBytes(t);
    assert b[0..8] == EncodeInt64(t.fileSize);
    assert b[8..12] == EncodeInt32(t.blockCount);
    assert b[12..20] == EncodeInt64(t.indexOffset);
    assert b[20..28] == EncodeInt64(t.indexSize);
    assert b[28..36] == EncodeInt64(DISK_FILE_MAGIC);
  }

  /** `seek(pos)`, a read of 8 bytes, `Bytes.toLong`. */
  method ReadLong(bytes: seq<Byte>, pos: int) returns (v: int)
    requires 0 <= pos && pos + 8 <= |bytes|
    ensures v == DecodeInt64(bytes[pos..pos + 8])
  {
    var buffer := ReadExact(bytes, pos, 8);
    v := ToLong(buffer);
  }

  /** `seek(pos)`, a read of 4 bytes, `Bytes.toInt`. */
  method ReadInt(bytes: seq<Byte>, pos: int) returns (v: int)
    requires 0 <= pos && pos + 4 <= |bytes|
    ensures v == DecodeInt32(bytes[pos..pos + 4])
  {
    var buffer := ReadExact(bytes, pos, 4);
    v := ToInt(buffer);
  }

  /** The trailer reads of `open`, one field after the other from `fileSize - 36`. */
  method ReadTrailerAt(bytes: seq<Byte>) returns (t: Trailer, magic: int)
    requires |bytes| > TRAILER_SIZE
    ensures t == ReadTrailer(bytes[|bytes| - TRAILER_SIZE..])
    ensures magic == MagicOf(bytes[|bytes| - TRAILER_SIZE..])
  {
    ghost var tail := bytes[|bytes| - TRAILER_SIZE..];
    var pos := |bytes| - TRAILER_SIZE;
    var fileSize := ReadLong(bytes, pos);
    assert bytes[pos..pos + 8] == tail[0..8];
    var blockCount := ReadInt(bytes, pos + 8);
    assert bytes[pos + 8..pos + 12] == tail[8..12];
    var indexOffset := ReadLong(bytes, pos + 12);
    assert bytes[pos + 12..pos + 20] == tail[12..20];
    var indexSize := ReadLong(bytes, pos + 20);
    assert bytes[pos + 20..pos + 28] == tail[20..28];
    magic := ReadLong(bytes, pos + 28);
    assert bytes[pos + 28..pos + 36] == tail[28..36];
    t := Trailer(fileSize, blockCount, indexOffset, indexSize);
  }

  // ---------------------------------------------------------------------------
  // The meta set
  // ---------------------------------------------------------------------------

  /** Whether the set already holds a meta comparing equal to `m`. */
  predicate HasEqual(ms: seq<BlockMeta>, m: BlockMeta)
  {
    exists i | 0 <= i < |ms| :: MetaCompare(m, ms[i]) == 0
  }

  /**
   * `TreeSet.add(m)` on a set kept in ascending order: `m` goes before the
   * first greater meta, and is dropped when an equal one is already there.
   */
  function InsertMeta(ms: seq<BlockMeta>, m: BlockMeta): seq<BlockMeta>
    decreases |ms|
  {
    if ms == [] then [m]
    else if MetaCompare(m, ms[0]) < 0 then [m] + ms
    else if MetaCompare(m, ms[0]) == 0 then ms
    else [ms[0]] + InsertMeta(ms[1..], m)
  }

  /** Adding puts nothing but `m` into the set. */
  lemma {:induction false} InsertMetaMembers(ms: seq<BlockMeta>, m: BlockMeta)
    ensures forall x | x in InsertMeta(ms, m) :: x in ms || x == m
    decreases |ms|
  {
    if ms != [] && MetaCompare(m, ms[0]) > 0 {
      InsertMetaMembers(ms[1..], m);
      assert ms == [ms[0]] + ms[1..];
    }
  }

  /** Adding to a sorted set keeps it sorted. */
  lemma {:induction false} InsertMetaSorted(ms: seq<BlockMeta>, m: BlockMeta)
    requires MetasSorted(ms)
    ensures MetasSorted(InsertMeta(ms, m))
    decreases |ms|
  {
    if ms == [] {
    } else if MetaCompare(m, ms[0]) < 0 {
      var r := [m] + ms;
      forall i, j | 0 <= i < j < |r|
        ensures MetaCompare(r[i], r[j]) < 0
      {
        if i == 0 && j > 1 {
          KvTransitive(m.lastKv, ms[0].lastKv, ms[j - 1].lastKv);
        }
      }
    } else if MetaCompare(m, ms[0]) > 0 {
      var rest := ms[1..];
      InsertMetaSorted(rest, m);
      InsertMetaMembers(rest, m);
      var ins := InsertMeta(rest, m);
      var r := [ms[0]] + ins;
      forall i, j | 0 <= i < j < |r|
        ensures MetaCompare(r[i], r[j]) < 0
      {
        if i == 0 {
          var x := ins[j - 1];
          if x != m {
            assert x in rest;
          } else {
            KvAntisymmetric(m.lastKv, ms[0].lastKv);
          }
        }
      }
    }
  }

  /** The rest of a sorted set after its least meta is sorted. */
  lemma SortedTail(ms: seq<BlockMeta>)
    requires MetasSorted(ms) && ms != []
    ensures MetasSorted(ms[1..])
  {
    forall i, j | 0 <= i < j < |ms| - 1
      ensures MetaCompare(ms[1..][i], ms[1..][j]) < 0
    {
      assert ms[1..][i] == ms[i + 1] && ms[1..][j] == ms[j + 1];
    }
  }

  /** A meta before the least of a sorted set equals none of it. */
  lemma BelowHeadHasNoEqual(ms: seq<BlockMeta>, m: BlockMeta)
    requires MetasSorted(ms) && ms != [] && MetaCompare(m, ms[0]) < 0
    ensures !HasEqual(ms, m)
  {
    forall i | 0 < i < |ms|
      ensures MetaCompare(m, ms[i]) < 0
    {
      KvTransitive(m.lastKv, ms[0].lastKv, ms[i].lastKv);
    }
  }

  /** `add` of a meta equal to one already in a sorted set changes nothing. */
  lemma {:induction false} InsertMetaKeeps(ms: seq<BlockMeta>, m: BlockMeta)
    requires MetasSorted(ms) && HasEqual(ms, m)
    ensures InsertMeta(ms, m) == ms
    decreases |ms|
  {
    if MetaCompare(m, ms[0]) < 0 {
      BelowHeadHasNoEqual(ms, m);
      assert false;
    } else if MetaCompare(m, ms[0]) > 0 {
      HasEqualTail(ms, m);
      SortedTail(ms);
      InsertMetaKeeps(ms[1..], m);
      MetasCons(ms);
    }
  }

  /** A non-empty sequence of metas is its head followed by its tail. */
  lemma {:induction false} MetasCons(ms: seq<BlockMeta>)
    requires ms != []
    ensures [ms[0]] + ms[1..] == ms
  {
  }

  /** `add` of a meta equal to none in the set adds exactly that meta. */
  lemma {:induction false} InsertMetaAdds(ms: seq<BlockMeta>, m: BlockMeta)
    requires !HasEqual(ms, m)
    ensures multiset(InsertMeta(ms, m)) == multiset(ms) + multiset{m}
    decreases |ms|
  {
    if ms != [] {
      assert MetaCompare(m, ms[0]) != 0;
      if MetaCompare(m, ms[0]) > 0 {
        HasEqualTail(ms, m);
        InsertMetaAdds(ms[1..], m);
        assert ms == [ms[0]] + ms[1..];
      }
    }
  }

  /** A head that differs from `m` does not decide whether the set holds an equal meta. */
  lemma HasEqualTail(ms: seq<BlockMeta>, m: BlockMeta)
    requires ms != [] && MetaCompare(m, ms[0]) != 0
    ensures HasEqual(ms, m) <==> HasEqual(ms[1..], m)
  {
    var rest := ms[1..];
    if HasEqual(ms, m) {
      var i :| 0 <= i < |ms| && MetaCompare(m, ms[i]) == 0;
      assert i != 0 && rest[i - 1] == ms[i];
    }
    if HasEqual(rest, m) {
      var i :| 0 <= i < |rest| && MetaCompare(m, rest[i]) == 0;
      assert ms[i + 1] == rest[i];
    }
  }

  // ---------------------------------------------------------------------------
  // open
  // ---------------------------------------------------------------------------

  /** The meta parser `parseFrom(index, _)` as a function of the offset. */
  function MetaAt(index: seq<Byte>): int -> Result<BlockMeta>
  {
    p => ParseMetaAt(index, p)
  }

  /**
   * The do-while loop of `open` from `offset`, with meta parser `parse`
   * over an index of `size` bytes: parse a meta, advance past it, add it
   * to the set, and go on while the offset is inside the index.  The result
   * is the set when the loop stops and the failure that stopped it, if any.
   * Every meta takes up at least one byte, so the loop ends.
   */
  function ParseIndex(parse: int -> Result<BlockMeta>, size: int, offset: int, ms: seq<BlockMeta>): (seq<BlockMeta>, Option<Error>)
    decreases size - offset
  {
    match parse(offset)
    case Err(e) => (ms, Some(e))
    case Ok(m) =>
      var next := offset + MetaSize(m);
      if next < size then ParseIndex(parse, size, next, InsertMeta(ms, m))
      else (InsertMeta(ms, m), None)
  }

  /** One turn of the loop: the meta parsed at `offset` joins the set, and the loop goes on past it if the index does. */
  lemma ParseIndexStep(parse: int -> Result<BlockMeta>, size: int, offset: int, ms: seq<BlockMeta>, m: BlockMeta)
    requires parse(offset) == Ok(m)
    ensures ParseIndex(parse, size, offset, ms) ==
      if offset + MetaSize(m) < size then ParseIndex(parse, size, offset + MetaSize(m), InsertMeta(ms, m))
      else (InsertMeta(ms, m), None)
  {
  }

  /** The loop keeps the set sorted. */
  lemma {:induction false} ParseIndexSorted(parse: int -> Result<BlockMeta>, size: int, offset: int, ms: seq<BlockMeta>)
    requires MetasSorted(ms)
    ensures MetasSorted(ParseIndex(parse, size, offset, ms).0)
    decreases size - offset
  {
    match parse(offset)
    case Err(_) =>
    case Ok(m) =>
      InsertMetaSorted(ms, m);
      if offset + MetaSize(m) < size {
        ParseIndexSorted(parse, size, offset + MetaSize(m), InsertMeta(ms, m));
      }
  }

  /** `BlockMeta.parseFrom(buffer, offset)` inside the index loop, seen through `parse`. */
  method ParseMetaIn(buffer: array<Byte>, offset: int, ghost index: seq<Byte>, ghost parse: int -> Result<BlockMeta>)
    returns (meta: Result<BlockMeta>)
    requires buffer.Length <= INT32_MAX && 0 <= offset <= buffer.Length && buffer[..] == index
    requires forall o {:trigger ParseMetaAt(index, o)} :: ParseMetaAt(index, o) == parse(o)
    ensures meta == parse(offset)
    ensures meta.Ok? ==> offset + MetaSize(meta.value) <= buffer.Length
  {
    meta := BlockMetas.ParseFrom(buffer, offset);
    if meta.Ok? {
      ParsedMetaFits(buffer[..], offset, meta.value);
    }
  }

  /**
   * The loop of `open` over the index buffer, whose metas `parse` gives
   * (`MetaAt` of the buffer's bytes; a ghost parameter, so that the proof
   * sees the parser's body only where the loop calls it).  When the loop
   * stops without a failure the offset is exactly the buffer's length, so
   * the source's closing `assert offset == buffer.length` always holds.
   */
  method ParseIndexFrom(buffer: array<Byte>, ms: seq<BlockMeta>, ghost index: seq<Byte>, ghost parse: int -> Result<BlockMeta>)
    returns (metas: seq<BlockMeta>, failure: Option<Error>)
    requires buffer.Length <= INT32_MAX && buffer[..] == index
    requires forall o {:trigger ParseMetaAt(index, o)} :: ParseMetaAt(index, o) == parse(o)
    ensures (metas, failure) == ParseIndex(parse, buffer.Length, 0, ms)
  {
    ghost var goal := ParseIndex(parse, buffer.Length, 0, ms);
    var offset := 0;
    metas := ms;
    while true
      invariant 0 <= offset <= buffer.Length
      invariant ParseIndex(parse, buffer.Length, offset, metas) == goal
      decreases buffer.Length - offset
    {
      var meta := ParseMetaIn(buffer, offset, index, parse);
      if meta.Err? {
        return metas, Some(meta.error);
      }
      ParseIndexStep(parse, buffer.Length, offset, metas, meta.value);
      offset := offset + MetaSize(meta.value);
      metas := InsertMeta(metas, meta.value);
      if !(offset < buffer.Length) {
        break;
      }
    }
    assert offset == buffer.Length;
    failure := None;
  }

  /** The fields `open` sets. */
  datatype FileState = FileState(fileSize: int, blockCount: int, indexOffset: int, indexSize: int, metas: seq<BlockMeta>)

  /**
   * `open` on a file holding `bytes`, from the fields `st`: the fields after
   * it and the failure it ends with, if any.  The fields assigned before a
   * failing assertion keep their new values.
   */
  function OpenSpec(bytes: seq<Byte>, st: FileState): (FileState, Option<Error>)
  {
    var n := |bytes|;
    var sized := st.(fileSize := n);
    if n <= TRAILER_SIZE then (sized, Some(AssertionFailed))
    else CheckTrailer(bytes, sized, ReadTrailer(bytes[n - TRAILER_SIZE..]), MagicOf(bytes[n - TRAILER_SIZE..]))
  }

  /**
   * `open` from the trailer's fields and magic number on: the recorded size
   * must be the file's length, and the magic number checked after the
   * fields are assigned.
   */
  function CheckTrailer(bytes: seq<Byte>, sized: FileState, t: Trailer, magic: int): (FileState, Option<Error>)
  {
    if t.fileSize != |bytes| then (sized, Some(AssertionFailed))
    else if magic != DISK_FILE_MAGIC then (WithTrailer(sized, t), Some(AssertionFailed))
    else LoadIndex(bytes, WithTrailer(sized, t))
  }

  /** The fields after the trailer's block count, index offset and index size are assigned. */
  function WithTrailer(st: FileState, t: Trailer): (r: FileState)
    ensures r.fileSize == st.fileSize && r.metas == st.metas
    ensures r.blockCount == t.blockCount && r.indexOffset == t.indexOffset && r.indexSize == t.indexSize
  {
    st.(blockCount := t.blockCount, indexOffset := t.indexOffset, indexSize := t.indexSize)
  }

  /**
   * The rest of `open` once the trailer is read: the index is read at
   * `indexOffset` into a buffer of `(int) indexSize` bytes and parsed into
   * the meta set, whose size must be the block count.  The metas parsed
   * before a failure stay in the set.
   */
  function LoadIndex(bytes: seq<Byte>, read: FileState): (FileState, Option<Error>)
  {
    match ReadAt(bytes, read.indexOffset, Wrap32(read.indexSize))
    case Err(e) => (read, Some(e))
    case Ok(index) =>
      var parsed := ParseIndex(MetaAt(index), |index|, 0, read.metas);
      var filled := read.(metas := parsed.0);
      if parsed.1.Some? then (filled, parsed.1)
      else if |parsed.0| != read.blockCount then (filled, Some(AssertionFailed))
      else (filled, None)
  }

  /** Loading the index changes only the meta set, and keeps it sorted. */
  lemma {:induction false} LoadIndexSorted(bytes: seq<Byte>, read: FileState)
    requires MetasSorted(read.metas)
    ensures LoadIndex(bytes, read).0 == read.(metas := LoadIndex(bytes, read).0.metas)
    ensures MetasSorted(LoadIndex(bytes, read).0.metas)
  {
    var r := ReadAt(bytes, read.indexOffset, Wrap32(read.indexSize));
    if r.Ok? {
      ParseIndexSorted(MetaAt(r.value), |r.value|, 0, read.metas);
    }
  }

  /**
   * The index reading of `open`: the buffer read at `indexOffset`, the
   * meta loop over it, and the check of the set's size against the block
   * count.
   */
  method ReadIndex(bytes: seq<Byte>, read: FileState) returns (r: (FileState, Option<Error>))
    ensures r == LoadIndex(bytes, read)
  {
    var index := Read(bytes, read.indexOffset, Wrap32(read.indexSize));
    if index.Err? {
      return (read, Some(index.error));
    }
    Wrap32Identity(read.indexSize);
    var metas, failure := ParseIndexFrom(index.value, read.metas, index.value[..], MetaAt(index.value[..]));
    var filled := read.(metas := metas);
    if failure.Some? {
      return (filled, failure);
    }
    if |metas| != read.blockCount {
      return (filled, Some(AssertionFailed));
    }
    r := (filled, None);
  }

  /**
   * A successful load read a non-empty index lying inside the file, and
   * left exactly `blockCount` metas: an empty index fails, since the loop
   * always parses a first meta.
   */
  lemma {:induction false} LoadIndexSucceeds(bytes: seq<Byte>, read: FileState)
    ensures LoadIndex(bytes, read).1.None? ==>
      0 <= read.indexOffset && 0 < Wrap32(read.indexSize) && read.indexOffset + Wrap32(read.indexSize) <= |bytes|
      && |LoadIndex(bytes, read).0.metas| == read.blockCount
  {
    if Wrap32(read.indexSize) == 0 {
      assert ParseAt([], 0).Err?;
    }
  }

  /**
   * `open` fails on a file no longer than the trailer, on a recorded size
   * other than the file's length, and on a wrong magic number.
   */
  lemma {:induction false} OpenRejects(bytes: seq<Byte>, st: FileState)
    ensures |bytes| <= TRAILER_SIZE ==> OpenSpec(bytes, st).1 == Some(AssertionFailed)
    ensures |bytes| > TRAILER_SIZE && ReadTrailer(bytes[|bytes| - TRAILER_SIZE..]).fileSize != |bytes|
      ==> OpenSpec(bytes, st).1 == Some(AssertionFailed)
    ensures |bytes| > TRAILER_SIZE && MagicOf(bytes[|bytes| - TRAILER_SIZE..]) != DISK_FILE_MAGIC
      ==> OpenSpec(bytes, st).1 == Some(AssertionFailed)
  {
  }

  /**
   * Past the trailer checks, a successful `open` read a trailer recording
   * the file's own size and the magic number, and left a sorted set of
   * exactly `blockCount` metas, read from a non-empty index inside the
   * file.  A failed one leaves the fields other than the metas as assigned
   * so far, and the set sorted.
   */
  lemma {:induction false} CheckedTrailer(bytes: seq<Byte>, sized: FileState, t: Trailer, magic: int)
    requires MetasSorted(sized.metas)
    ensures MetasSorted(CheckTrailer(bytes, sized, t, magic).0.metas)
    ensures CheckTrailer(bytes, sized, t, magic).0.fileSize == sized.fileSize
    ensures CheckTrailer(bytes, sized, t, magic).1.None? ==> t.fileSize == |bytes| && magic == DISK_FILE_MAGIC
    ensures CheckTrailer(bytes, sized, t, magic).1.None? ==>
      var after := CheckTrailer(bytes, sized, t, magic).0;
      after == WithTrailer(sized, t).(metas := after.metas) && |after.metas| == t.blockCount
      && 0 <= t.indexOffset && 0 < Wrap32(t.indexSize) && t.indexOffset + Wrap32(t.indexSize) <= |bytes|
  {
    if t.fileSize == |bytes| && magic == DISK_FILE_MAGIC {
      LoadIndexSorted(bytes, WithTrailer(sized, t));
      LoadIndexSucceeds(bytes, WithTrailer(sized, t));
    }
  }

  /**
   * A successful `open` read a trailer recording the file's own size and
   * the magic number, and left a sorted set of exactly `blockCount` metas,
   * read from a non-empty index inside the file.  A failed one still leaves
   * the set sorted.
   */
  lemma {:induction false} OpenedIndex(bytes: seq<Byte>, st: FileState)
    requires MetasSorted(st.metas)
    ensures MetasSorted(OpenSpec(bytes, st).0.metas)
    ensures OpenSpec(bytes, st).1.None? ==>
      |bytes| > TRAILER_SIZE && MagicOf(bytes[|bytes| - TRAILER_SIZE..]) == DISK_FILE_MAGIC
      && ReadTrailer(bytes[|bytes| - TRAILER_SIZE..]).fileSize == |bytes|
    ensures OpenSpec(bytes, st).1.None? ==>
      var after := OpenSpec(bytes, st).0;
      after.fileSize == |bytes| && |after.metas| == after.blockCount && 0 <= after.indexOffset
      && 0 < Wrap32(after.indexSize) && after.indexOffset + Wrap32(after.indexSize) <= |bytes|
  {
    var n := |bytes|;
    var sized := st.(fileSize := n);
    if n <= TRAILER_SIZE {
      assert OpenSpec(bytes, st).0 == sized;
    } else {
      var tail := bytes[n - TRAILER_SIZE..];
      assert OpenSpec(bytes, st) == CheckTrailer(bytes, sized, ReadTrailer(tail), MagicOf(tail));
      CheckedTrailer(bytes, sized, ReadTrailer(tail), MagicOf(tail));
    }
  }

  // ---------------------------------------------------------------------------
  // Blocks and the records the iterator yields
  // ---------------------------------------------------------------------------

  /**
   * `createReader(meta)`: a buffer of `(int) blockSize` bytes read at the
   * block's offset, parsed as a whole block.  The handle is used after the
   * buffer is allocated.
   */
  function LoadBlock(h: Handle, meta: BlockMeta): Result<seq<KeyValue>>
  {
    var len := Wrap32(meta.blockSize);
    if len < 0 then Err(NegativeArraySize)
    else match h
      case Unopened => Err(NotOpen)
      case Closed => Err(StreamClosed)
      case Opened(bytes) =>
        var block :- ReadAt(bytes, meta.blockOffset, len);
        ParseBlock(Some(block), 0, len)
  }

  /** A loaded block holds fewer records than a Java `int` can count. */
  lemma {:induction false} LoadedBlockFits(h: Handle, meta: BlockMeta)
    requires LoadBlock(h, meta).Ok?
    ensures |LoadBlock(h, meta).value| <= INT32_MAX
  {
    var len := Wrap32(meta.blockSize);
    Wrap32Identity(meta.blockSize);
    var block := ReadAt(h.bytes, meta.blockOffset, len).value;
    ParsedBlockFits(block, len, LoadBlock(h, meta).value);
  }

  /** What an iterator has yet to yield: records, then the failure that will end it, if any. */
  datatype Stream = Stream(records: seq<KeyValue>, failure: Option<Error>)

  function Prepend(kvs: seq<KeyValue>, s: Stream): Stream
  {
    Stream(kvs + s.records, s.failure)
  }

  /** Nothing before a stream leaves it as it is. */
  lemma PrependNothing(s: Stream)
    ensures Prepend([], s) == s
  {
    assert [] + s.records == s.records;
  }

  /** Records put before records put before a stream. */
  lemma PrependTwice(a: seq<KeyValue>, b: seq<KeyValue>, s: Stream)
    ensures Prepend(a, Prepend(b, s)) == Prepend(a + b, s)
  {
    assert a + (b + s.records) == (a + b) + s.records;
  }

  /**
   * The records still to come from the blocks of `metas`, loaded one by one
   * and filtered by the snapshot `version`; the first block that fails to
   * load ends the stream.
   */
  function Pending(h: Handle, metas: seq<BlockMeta>, version: int): Stream
    decreases |metas|
  {
    if metas == [] then Stream([], None)
    else match LoadBlock(h, metas[0])
      case Err(e) => Stream([], Some(e))
      case Ok(kvs) => Prepend(VisibleFrom(kvs, version, 0), Pending(h, metas[1..], version))
  }

  /** The first block of the stream: its failure ends it, otherwise its visible records lead. */
  lemma {:induction false} PendingHead(h: Handle, metas: seq<BlockMeta>, version: int)
    requires metas != []
    ensures LoadBlock(h, metas[0]).Err? ==> Pending(h, metas, version) == Stream([], Some(LoadBlock(h, metas[0]).error))
    ensures LoadBlock(h, metas[0]).Ok? ==>
              Pending(h, metas, version) == Prepend(VisibleFrom(LoadBlock(h, metas[0]).value, version, 0), Pending(h, metas[1..], version))
  {
  }

  /**
   * `tailSet(createSeekDummy(target))`: the metas of the set not before the
   * dummy, whose order is that of the last records alone.
   */
  function TailSet(metas: seq<BlockMeta>, target: KeyValue): seq<BlockMeta>
    decreases |metas|
  {
    if metas == [] then []
    else (if MetaCompare(metas[0], CreateSeekDummy(target)) >= 0 then [metas[0]] else []) + TailSet(metas[1..], target)
  }

  /**
   * What `seekTo(target)` leaves to yield from the blocks of `metas`: the
   * first block whose seek finds a visible record gives the records from
   * there, and the blocks after it are read from their start.
   */
  function SeekPending(h: Handle, metas: seq<BlockMeta>, version: int, target: KeyValue): Stream
    decreases |metas|
  {
    if metas == [] then Stream([], None)
    else match LoadBlock(h, metas[0])
      case Err(e) => Stream([], Some(e))
      case Ok(kvs) =>
        var found := VisibleFrom(kvs, version, SeekPos(kvs, target));
        if found != [] then Prepend(found, Pending(h, metas[1..], version))
        else SeekPending(h, metas[1..], version, target)
  }

  // ---------------------------------------------------------------------------
  // DiskFile
  // ---------------------------------------------------------------------------

  class DiskFile {
    const fileName: string
    var handle: Handle
    var fileSize: int
    var blockCount: int
    var blockIndexOffset: int
    var blockIndexSize: int
    var blockMetaSet: seq<BlockMeta>
    var refCount: int

    function State(): FileState
      reads this
    {
      FileState(fileSize, blockCount, blockIndexOffset, blockIndexSize, blockMetaSet)
    }

    /** The meta set is a sorted set. */
    predicate Valid()
      reads this
    {
      MetasSorted(blockMetaSet)
    }

    /** `DiskFile(fileName)`: nothing read yet, no reference. */
    constructor(fileName: string)
      ensures this.fileName == fileName && handle == Unopened && refCount == 0
      ensures State() == FileState(0, 0, 0, 0, [])
      ensures Valid()
    {
      this.fileName := fileName;
      handle := Unopened;
      fileSize := 0;
      blockCount := 0;
      blockIndexOffset := 0;
      blockIndexSize := 0;
      blockMetaSet := [];
      refCount := 0;
    }

    /**
     * `open()` on a file holding `bytes`: the handle is set first, then the
     * trailer is checked and the index parsed into the meta set.
     */
    method Open(bytes: seq<Byte>) returns (r: Result<DiskFile>)
      requires Valid()
      modifies this
      ensures Valid()
      ensures handle == Opened(bytes) && refCount == old(refCount)
      ensures State() == OpenSpec(bytes, old(State())).0
      ensures r == (if OpenSpec(bytes, old(State())).1.None? then Ok(this) else Err(OpenSpec(bytes, old(State())).1.value))
    {
      handle := Opened(bytes);
      fileSize := |bytes|;
      if !(fileSize > TRAILER_SIZE) {
        return Err(AssertionFailed);
      }
      var t, magic := ReadTrailerAt(bytes);
      if fileSize != t.fileSize {
        return Err(AssertionFailed);
      }
      blockCount := t.blockCount;
      blockIndexOffset := t.indexOffset;
      blockIndexSize := t.indexSize;
      if magic != DISK_FILE_MAGIC {
        return Err(AssertionFailed);
      }
      assert State() == WithTrailer(old(State()).(fileSize := |bytes|), t);
      var loaded := ReadIndex(bytes, State());
      LoadIndexSorted(bytes, State());
      blockMetaSet := loaded.0.metas;
      if loaded.1.Some? {
        return Err(loaded.1.value);
      }
      r := Ok(this);
    }

    /** `createReader(meta)`: the block at the meta's offset, parsed. */
    method CreateReader(meta: BlockMeta) returns (r: Result<BlockReader>)
      ensures r.Ok? <==> LoadBlock(handle, meta).Ok?
      ensures r.Ok? ==> fresh(r.value) && r.value.Valid() && r.value.kvBuf == LoadBlock(handle, meta).value
      ensures r.Err? ==> r.error == LoadBlock(handle, meta).error
    {
      var len := Wrap32(meta.blockSize);
      if len < 0 {
        return Err(NegativeArraySize);
      }
      match handle
      case Unopened => return Err(NotOpen);
      case Closed => return Err(StreamClosed);
      case Opened(bytes) =>
        var buffer := Read(bytes, meta.blockOffset, len);
        if buffer.Err? {
          return Err(buffer.error);
        }
        Wrap32Identity(meta.blockSize);
        r := BlockReader.ParseFrom(buffer.value, 0, buffer.value.Length);
    }

    /**
     * `iterator(filter)`: takes a reference first, then builds the iterator
     * over the metas the filter keeps; a failing filter leaves the
     * reference taken.
     */
    method Iterator(filter: KeyValueFilter) returns (r: Result<DiskFileIterator>)
      modifies this
      ensures refCount == old(refCount) + 1
      ensures handle == old(handle) && State() == old(State())
      ensures r.Ok? <==> FilteredMeta(filter.key, blockMetaSet).Ok?
      ensures r.Err? ==> r.error == FilteredMeta(filter.key, blockMetaSet).error
      ensures r.Ok? ==> (fresh(r.value) && r.value.df == this && r.value.filter == filter && r.value.Valid()
        && r.value.filteredMeta == FilteredMeta(filter.key, blockMetaSet).value
        && r.value.Remaining() == Pending(handle, r.value.filteredMeta, filter.version))
    {
      refCount := refCount + 1;
      var metas := filter.GetFilteredMeta(blockMetaSet);
      if metas.Err? {
        return Err(metas.error);
      }
      var it := new DiskFileIterator(this, filter, metas.value);
      r := Ok(it);
    }

    /** `iterator()`: a fresh filter, which keeps every block and sees every record. */
    method IteratorAll() returns (it: DiskFileIterator)
      modifies this
      ensures refCount == old(refCount) + 1
      ensures handle == old(handle) && State() == old(State())
      ensures fresh(it) && it.df == this && it.Valid() && it.filteredMeta == blockMetaSet
      ensures it.Remaining() == Pending(handle, blockMetaSet, INT64_MAX)
    {
      var filter := new KeyValueFilter();
      var r := Iterator(filter);
      it := r.value;
    }

    /**
     * `close()`: refused while references remain; otherwise the handle is
     * closed if there is one.
     */
    method Close() returns (r: Result<()>)
      modifies this
      ensures State() == old(State()) && refCount == old(refCount)
      ensures old(refCount) != 0 ==> r == Err(RefCountNotZero) && handle == old(handle)
      ensures old(refCount) == 0 ==> r == Ok(()) && handle == (if old(handle) == Unopened then Unopened else Closed)
    {
      if refCount != 0 {
        return Err(RefCountNotZero);
      }
      if handle != Unopened {
        handle := Closed;
      }
      r := Ok(());
    }

    /** `equals`: the same file name. */
    method Equals(that: DiskFile?) returns (r: bool)
      ensures r <==> that != null && that.fileName == fileName
    {
      if that == this {
        return true;
      }
      if that == null {
        return false;
      }
      r := fileName == that.fileName;
    }
  }

  // ---------------------------------------------------------------------------
  // DiskFileIterator
  // ---------------------------------------------------------------------------

  /**
   * The file iterator: `metaIter` is what `blockMetaIter` has yet to return,
   * and the current reader and its cursor are both null or both set.
   */
  class DiskFileIterator {
    var df: DiskFile
    var filter: KeyValueFilter
    var filteredMeta: seq<BlockMeta>
    var metaIter: seq<BlockMeta>
    var currentReader: BlockReader?
    var currentDataIter: DataBlockIterator?

    predicate Valid()
      reads this, currentDataIter
    {
      (currentReader == null <==> currentDataIter == null)
      && (currentDataIter != null ==> currentDataIter.Valid() && currentDataIter.filter == filter)
    }

    /** The visible records the current cursor has yet to yield. */
    ghost function Current(): seq<KeyValue>
      reads this, currentDataIter, filter
      requires Valid()
    {
      if currentDataIter == null then []
      else VisibleFrom(currentDataIter.list, filter.version, currentDataIter.pos)
    }

    /** Everything the iterator has yet to yield: the current block's rest, then the remaining blocks. */
    ghost function Remaining(): Stream
      reads this, currentDataIter, filter, df
      requires Valid()
    {
      Prepend(Current(), Pending(df.handle, metaIter, filter.version))
    }

    /** The cursor stands on a visible record, as `hasNext()` returning true leaves it. */
    predicate Ready()
      reads this, currentDataIter, filter
    {
      currentDataIter != null && 0 <= currentDataIter.pos < |currentDataIter.list|
      && Visible(filter.version, currentDataIter.list[currentDataIter.pos])
    }

    /** `DiskFileIterator(df, filter)`, given the metas `getFilteredMeta` returned. */
    constructor(df: DiskFile, filter: KeyValueFilter, filteredMeta: seq<BlockMeta>)
      ensures this.df == df && this.filter == filter && this.filteredMeta == filteredMeta
      ensures metaIter == filteredMeta && currentReader == null && currentDataIter == null
      ensures Valid() && Remaining() == Pending(df.handle, filteredMeta, filter.version)
    {
      this.df := df;
      this.filter := filter;
      this.filteredMeta := filteredMeta;
      metaIter := filteredMeta;
      currentReader := null;
      currentDataIter := null;
      PrependNothing(Pending(df.handle, filteredMeta, filter.version));
    }

    /**
     * `nextBlockReader()`: loads the remaining blocks in turn until one has
     * a visible record.
     */
    method NextBlockReader() returns (r: Result<bool>)
      requires Valid() && Current() == []
      modifies this, currentDataIter
      ensures Valid()
      ensures df == old(df) && filter == old(filter) && filteredMeta == old(filteredMeta)
      ensures Pending(df.handle, old(metaIter), filter.version).records != [] ==>
        r == Ok(true) && Ready() && Remaining() == Pending(df.handle, old(metaIter), filter.version)
      ensures Pending(df.handle, old(metaIter), filter.version).records == [] ==>
        r == (if Pending(df.handle, old(metaIter), filter.version).failure.Some?
          then Err(Pending(df.handle, old(metaIter), filter.version).failure.value) else Ok(false))
      ensures r == Ok(false) ==> Remaining() == Stream([], None)
    {
      ghost var goal := Pending(df.handle, metaIter, filter.version);
      while metaIter != []
        invariant Valid() && Current() == []
        invariant df == old(df) && filter == old(filter) && filteredMeta == old(filteredMeta)
        invariant Pending(df.handle, metaIter, filter.version) == goal
        decreases |metaIter|
      {
        var meta := metaIter[0];
        PendingHead(df.handle, metaIter, filter.version);
        metaIter := metaIter[1..];
        var has := LoadCursor(meta);
        if has.Err? {
          return Err(has.error);
        }
        PrependNothing(Pending(df.handle, metaIter, filter.version));
        if has.value {
          return Ok(true);
        }
      }
      r := Ok(false);
    }

    /**
     * One step of `nextBlockReader()`: the reader of the block of `meta`
     * becomes current, its cursor moved to the first visible record.
     */
    method LoadCursor(meta: BlockMeta) returns (r: Result<bool>)
      requires Valid()
      modifies this
      ensures Valid()
      ensures df == old(df) && filter == old(filter) && filteredMeta == old(filteredMeta) && metaIter == old(metaIter)
      ensures r.Err? ==> LoadBlock(df.handle, meta) == Err(r.error)
      ensures r.Ok? ==> (LoadBlock(df.handle, meta).Ok?
        && Current() == VisibleFrom(LoadBlock(df.handle, meta).value, filter.version, 0)
        && (r.value <==> Current() != []) && (r.value ==> Ready()))
    {
      var reader := df.CreateReader(meta);
      if reader.Err? {
        return Err(reader.error);
      }
      currentReader := reader.value;
      var it := currentReader.Iterator(filter);
      currentDataIter := it;
      var has := it.HasNext();
      SkipsToFirstVisible(it.list, filter.version, 0);
      r := Ok(has);
    }

    /** `hasNext()`: the current cursor first, then the following blocks. */
    method HasNext() returns (r: Result<bool>)
      requires Valid()
      modifies this, currentDataIter
      ensures Valid()
      ensures df == old(df) && filter == old(filter) && filteredMeta == old(filteredMeta)
      ensures old(Remaining()).records != [] ==> r == Ok(true) && Ready() && Remaining() == old(Remaining())
      ensures old(Remaining()).records == [] ==>
        r == (if old(Remaining()).failure.Some? then Err(old(Remaining()).failure.value) else Ok(false))
      ensures r == Ok(false) ==> Remaining() == Stream([], None)
    {
      if currentReader != null {
        ghost var before := currentDataIter.pos;
        var has := currentDataIter.HasNext();
        SkipsToFirstVisible(currentDataIter.list, filter.version, before);
        if has {
          return Ok(true);
        }
      }
      r := NextBlockReader();
    }

    /**
     * `next()`: the current cursor's next record.  After `hasNext()`
     * returned true it is the first of the remaining records.
     */
    method Next() returns (r: Result<Option<KeyValue>>)
      requires Valid()
      modifies currentDataIter
      ensures Valid()
      ensures old(Ready()) ==> r.Ok? && r.value.Some? && old(Remaining()) == Prepend([r.value.value], Remaining())
      ensures currentDataIter == null ==> r == Err(NoCurrentBlock)
      ensures currentDataIter != null ==>
        currentDataIter.pos == FirstVisible(currentDataIter.list, filter.version, old(currentDataIter.pos)) + 1
        && r == Ok(if currentDataIter.pos - 1 < |currentDataIter.list| then Some(currentDataIter.list[currentDataIter.pos - 1]) else None)
    {
      if currentDataIter == null {
        return Err(NoCurrentBlock);
      }
      ghost var list, before := currentDataIter.list, currentDataIter.pos;
      var kv := currentDataIter.Next();
      if 0 <= before < |list| && Visible(filter.version, list[before]) {
        assert VisibleFrom(list, filter.version, before) == [list[before]] + VisibleFrom(list, filter.version, before + 1);
        PrependTwice([list[before]], VisibleFrom(list, filter.version, before + 1), Pending(df.handle, metaIter, filter.version));
      }
      r := Ok(kv);
    }

    /**
     * `seekTo(target)`: restarts from the filtered metas not before the
     * target and seeks in each block until one has a visible record left.
     */
    method SeekTo(target: KeyValue) returns (r: Result<()>)
      requires Valid()
      modifies this, currentDataIter
      ensures Valid()
      ensures df == old(df) && filter == old(filter) && filteredMeta == old(filteredMeta)
      ensures var s := SeekPending(df.handle, TailSet(filteredMeta, target), filter.version, target);
        if s.records == [] && s.failure.Some? then r == Err(s.failure.value)
        else r == Ok(()) && Remaining() == s
    {
      metaIter := TailSet(filteredMeta, target);
      currentReader := null;
      currentDataIter := null;
      ghost var goal := SeekPending(df.handle, metaIter, filter.version, target);
      while metaIter != []
        invariant Valid() && Current() == []
        invariant df == old(df) && filter == old(filter) && filteredMeta == old(filteredMeta)
        invariant SeekPending(df.handle, metaIter, filter.version, target) == goal
        decreases |metaIter|
      {
        var meta := metaIter[0];
        metaIter := metaIter[1..];
        var has := SeekCursor(meta, target);
        if has.Err? {
          return Err(has.error);
        }
        if has.value {
          return Ok(());
        }
      }
      r := Ok(());
    }

    /**
     * One step of `seekTo(target)`: the reader of the block of `meta`
     * becomes current, its cursor sought to `target` and moved to the first
     * visible record from there.
     */
    method SeekCursor(meta: BlockMeta, target: KeyValue) returns (r: Result<bool>)
      requires Valid()
      modifies this
      ensures Valid()
      ensures df == old(df) && filter == old(filter) && filteredMeta == old(filteredMeta) && metaIter == old(metaIter)
      ensures r.Err? ==> LoadBlock(df.handle, meta) == Err(r.error)
      ensures r.Ok? ==> (LoadBlock(df.handle, meta).Ok?
        && Current() == VisibleFrom(LoadBlock(df.handle, meta).value, filter.version, SeekPos(LoadBlock(df.handle, meta).value, target))
        && (r.value <==> Current() != []) && (r.value ==> Ready()))
    {
      var reader := df.CreateReader(meta);
      if reader.Err? {
        return Err(reader.error);
      }
      LoadedBlockFits(df.handle, meta);
      currentReader := reader.value;
      var it := currentReader.Iterator(filter);
      currentDataIter := it;
      it.SeekTo(target);
      ghost var at := it.pos;
      var has := it.HasNext();
      SkipsToFirstVisible(it.list, filter.version, at);
      r := Ok(has);
    }

    /** `close()`: gives the file's reference back. */
    method Close()
      modifies df
      ensures df.refCount == old(df.refCount) - 1
      ensures df.handle == old(df.handle) && df.State() == old(df.State())
    {
      df.refCount := df.refCount - 1;
    }
  }
}
