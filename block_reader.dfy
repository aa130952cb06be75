/**
 * `BlockReader`: parsing a data block back into its records, the reader
 * object that holds them with their memory size, and the reader's cursor
 * `DataBlockIterator`, which skips the records a filter's snapshot version
 * cannot see and seeks by binary search.
 */
module BlockReaders {
  import opened Wrappers
  import opened ByteUtils
  import opened KeyValues
  import opened Crc32
  import opened KeyValueFilters
  import opened Blocks

  // ---------------------------------------------------------------------------
  // parseFrom
  // ---------------------------------------------------------------------------

  /** The record loop reads at `p` what `parseFrom` of a record reads there. */
  lemma {:induction false} RecordAtIs(buf: seq<Byte>, p: int)
    ensures RecordAt(buf)(p) == ParseAt(buf, p)
  {
  }

  /** `KeyValue.parseFrom(buffer, pos)` inside the record loop, seen as the loop's record parser. */
  method ReadRecord(buffer: array<Byte>, pos: int) returns (kv: Result<KeyValue>)
    requires 0 <= pos <= buffer.Length <= INT32_MAX
    ensures kv == RecordAt(buffer[..])(pos)
    ensures kv.Ok? ==> pos + SerializedSize(kv.value) <= buffer.Length
  {
    kv := KeyValues.ParseFrom(buffer, pos);
    RecordAtIs(buffer[..], pos);
    if kv.Ok? {
      ParsedFits(buffer[..], pos, kv);
    }
  }

  /**
   * The record loop of `parseFrom`: `kvSize` records from `start`, the
   * position after them, and the checksum register fed with their bytes.
   */
  method ReadRecords(buffer: array<Byte>, start: int, kvSize: int) returns (r: Result<(seq<KeyValue>, int)>, crc: bv32)
    requires 0 <= start <= buffer.Length <= INT32_MAX
    ensures r == ParseRecords(RecordAt(buffer[..]), start, LoopCount(kvSize))
    ensures r.Ok? ==> r.value.1 <= buffer.Length && crc == Update(INITIAL, buffer[start..r.value.1])
  {
    ghost var buf := buffer[..];
    ghost var parse := RecordAt(buf);
    var kvs: seq<KeyValue> := [];
    var pos := start;
    crc := INITIAL;
    var i := 0;
    while i < kvSize
      invariant 0 <= i <= LoopCount(kvSize)
      invariant start <= pos <= |buf|
      invariant ParseRecords(parse, start, i) == Ok((kvs, pos))
      invariant crc == Update(INITIAL, buf[start..pos])
      decreases kvSize - i
    {
      var kv := ReadRecord(buffer, pos);
      if kv.Err? {
        RoundFails(parse, start, i, kvs, pos, kv.error, LoopCount(kvSize));
        return Err(kv.error), crc;
      }
      var next := pos + SerializedSize(kv.value);
      ChecksumStep(buf, start, pos, next, crc);
      crc := Update(crc, buffer[pos..next]);
      ghost var before, at := kvs, pos;
      kvs := kvs + [kv.value];
      pos := next;
      i := i + 1;
      RoundReads(parse, start, i - 1, before, at, kv.value, i, kvs, pos);
    }
    assert i == LoopCount(kvSize);
    return Ok((kvs, pos)), crc;
  }

  /**
   * The body of `parseFrom(buffer, offset, size)` up to the construction of
   * the reader: the count, the record loop feeding each record's bytes to
   * the checksum, the checksum, and the two assertions.
   */
  method ReadBlock(buffer: array?<Byte>, offset: int, size: int) returns (r: Result<seq<KeyValue>>)
    requires IsInt32(offset) && IsInt32(size)
    requires buffer != null ==> buffer.Length <= INT32_MAX
    ensures r == ParseBlock(Contents(buffer), offset, size)
  {
    var countSlice := Slice(buffer, offset, KV_SIZE_LEN);
    if countSlice.Err? {
      return Err(countSlice.error);
    }
    var kvSize := ToInt(countSlice.value);
    r := ReadAfterCount(buffer, offset, size, kvSize);
  }

  /** `parseFrom` of a block once its record count has been read: the records, the checksum and the two assertions. */
  method ReadAfterCount(buffer: array<Byte>, offset: int, size: int, kvSize: int) returns (r: Result<seq<KeyValue>>)
    requires buffer.Length <= INT32_MAX && IsInt32(size)
    requires 0 <= offset && offset + KV_SIZE_LEN <= buffer.Length
    requires kvSize == DecodeInt32(buffer[offset..offset + KV_SIZE_LEN])
    ensures r == ParseBlockAt(buffer[..], offset, size)
  {
    var records, crc := ReadRecords(buffer, offset + KV_SIZE_LEN, kvSize);
    BlockWithAfterCount(RecordAt(buffer[..]), buffer[..], offset, size, records);
    if records.Err? {
      return Err(records.error);
    }
    r := ReadTail(buffer, offset, size, records.value.0, records.value.1, crc);
  }

  /** The checksum after the records and the two assertions that close `parseFrom`. */
  method ReadTail(buffer: array<Byte>, offset: int, size: int, kvs: seq<KeyValue>, end: int, crc: bv32)
    returns (r: Result<seq<KeyValue>>)
    requires buffer.Length <= INT32_MAX && IsInt32(size)
    requires 0 <= offset + KV_SIZE_LEN <= end <= buffer.Length
    requires crc == Update(INITIAL, buffer[offset + KV_SIZE_LEN..end])
    ensures r == ParseBlockTail(buffer[..], offset, size, kvs, end)
  {
    var pos := end;
    var checksumSlice := Slice(buffer, pos, CHECKSUM_LEN);
    if checksumSlice.Err? {
      return Err(checksumSlice.error);
    }
    var checksum := ToInt(checksumSlice.value);
    pos := pos + CHECKSUM_LEN;
    if checksum != Wrap32(Value(crc)) {
      return Err(AssertionFailed);
    }
    if pos != size {
      return Err(AssertionFailed);
    }
    return Ok(kvs);
  }

  /** A round that reads `last` at `pos` leaves the loop after `n` rounds with `kvs2`, at `pos2`. */
  lemma {:induction false} RoundReads(parse: int -> Result<KeyValue>, start: int, i: nat, kvs: seq<KeyValue>, pos: int, last: KeyValue,
                                      n: nat, kvs2: seq<KeyValue>, pos2: int)
    requires ParseRecords(parse, start, i) == Ok((kvs, pos))
    requires parse(pos) == Ok(last)
    requires n == i + 1 && kvs2 == kvs + [last] && pos2 == pos + SerializedSize(last)
    ensures ParseRecords(parse, start, n) == Ok((kvs2, pos2))
  {
    RecordsStep(parse, start, n, kvs, pos, last);
  }

  /** A round whose record fails ends the loop, however many rounds were asked for, with that error. */
  lemma {:induction false} RoundFails(parse: int -> Result<KeyValue>, start: int, i: nat, kvs: seq<KeyValue>, pos: int, e: Error, n: nat)
    requires i < n
    requires ParseRecords(parse, start, i) == Ok((kvs, pos))
    requires parse(pos) == Err(e)
    ensures ParseRecords(parse, start, n) == Err(e)
  {
    RecordsStepFails(parse, start, i + 1, kvs, pos);
    RecordsErrorStays(parse, start, i + 1, n);
  }

  /** A record that parses lies inside the buffer. */
  lemma {:induction false} ParsedFits(buf: seq<Byte>, pos: int, kv: Result<KeyValue>)
    requires |buf| <= INT32_MAX
    requires kv == Parse(Some(buf), pos) && kv.Ok?
    ensures 0 <= pos && pos + SerializedSize(kv.value) <= |buf|
  {
    ParsedRecordIsSerialized(buf, pos, kv.value);
  }

  /** Feeding the next record's bytes to the checksum of the bytes before it. */
  lemma {:induction false} ChecksumStep(buf: seq<Byte>, start: int, pos: int, next: int, crc: bv32)
    requires 0 <= start <= pos <= next <= |buf|
    requires crc == Update(INITIAL, buf[start..pos])
    ensures Update(crc, buf[pos..next]) == Update(INITIAL, buf[start..next])
  {
    SliceJoin(buf, start, pos, next);
    UpdateConcat(INITIAL, buf[start..pos], buf[pos..next]);
  }

  // ---------------------------------------------------------------------------
  // The reader
  // ---------------------------------------------------------------------------

  /** The sum of the records' memory sizes. */
  function MemorySum(kvs: seq<KeyValue>): nat
  {
    if kvs == [] then 0 else MemorySum(kvs[..|kvs| - 1]) + MemorySize(kvs[|kvs| - 1])
  }

  /** Memory sizes add up over a concatenation, and every record counts at least its 9 fixed bytes. */
  lemma {:induction false} MemorySumAppend(a: seq<KeyValue>, b: seq<KeyValue>)
    ensures MemorySum(a + b) == MemorySum(a) + MemorySum(b)
    ensures MemorySum(a) >= 9 * |a|
    decreases |a| + |b|
  {
    if b == [] {
      assert a + b == a;
      if a != [] {
        MemorySumAppend(a[..|a| - 1], []);
      }
    } else {
      var init := b[..|b| - 1];
      assert (a + b)[..|a + b| - 1] == a + init;
      MemorySumAppend(a, init);
    }
  }

  /** The loop of the constructor that adds up the memory sizes. */
  method SumMemorySizes(kvs: seq<KeyValue>) returns (total: int)
    ensures total == MemorySum(kvs)
  {
    total := 0;
    for i := 0 to |kvs|
      invariant total == MemorySum(kvs[..i])
    {
      assert kvs[..i + 1][..i] == kvs[..i];
      total := total + MemorySize(kvs[i]);
    }
    assert kvs[..|kvs|] == kvs;
  }

  /** `List.equals` over records: same length and pairwise `KeyValue.equals`. */
  predicate ListEquals(a: seq<KeyValue>, b: seq<KeyValue>)
  {
    if a == [] || b == [] then a == [] && b == []
    else KvEquals(a[0], b[0]) && ListEquals(a[1..], b[1..])
  }

  /** Lists are equal exactly when they have the same length and equal records at each index. */
  lemma {:induction false} ListEqualsMeans(a: seq<KeyValue>, b: seq<KeyValue>)
    ensures ListEquals(a, b) <==> |a| == |b| && forall i | 0 <= i < |a| :: KvEquals(a[i], b[i])
    decreases |a|
  {
    if a != [] && b != [] {
      ListEqualsMeans(a[1..], b[1..]);
      if |a| == |b| && forall i | 0 <= i < |a| :: KvEquals(a[i], b[i]) {
        forall i | 0 <= i < |a| - 1
          ensures KvEquals(a[1..][i], b[1..][i])
        {
          assert KvEquals(a[i + 1], b[i + 1]);
        }
      }
    }
  }

  /** A list equals itself, which is what `this == o` short-cuts. */
  lemma {:induction false} ListEqualsReflexive(a: seq<KeyValue>)
    ensures ListEquals(a, a)
  {
    forall i | 0 <= i < |a|
      ensures KvEquals(a[i], a[i])
    {
      EqualsIgnoresValue(a[i], a[i]);
    }
    ListEqualsMeans(a, a);
  }

  class BlockReader {
    var kvBuf: seq<KeyValue>
    var memorySize: int

    /** The memory size is that of the records held. */
    predicate Valid()
      reads this
    {
      memorySize == MemorySum(kvBuf)
    }

    /** `BlockReader(kvBuf)`: holds the records and adds up their memory sizes. */
    constructor(kvs: seq<KeyValue>)
      ensures kvBuf == kvs && Valid()
    {
      var total := SumMemorySizes(kvs);
      kvBuf := kvs;
      memorySize := total;
    }

    /** `parseFrom(buffer, offset, size)`: a new reader over the parsed records, or the failure. */
    static method ParseFrom(buffer: array?<Byte>, offset: int, size: int) returns (r: Result<BlockReader>)
      requires IsInt32(offset) && IsInt32(size)
      requires buffer != null ==> buffer.Length <= INT32_MAX
      ensures r.Ok? <==> ParseBlock(Contents(buffer), offset, size).Ok?
      ensures r.Ok? ==> fresh(r.value) && r.value.Valid() && r.value.kvBuf == ParseBlock(Contents(buffer), offset, size).value
      ensures r.Err? ==> r.error == ParseBlock(Contents(buffer), offset, size).error
    {
      var kvs := ReadBlock(buffer, offset, size);
      if kvs.Err? {
        return Err(kvs.error);
      }
      var reader := new BlockReader(kvs.value);
      return Ok(reader);
    }

    /** `getMemorySizeSize()`: the sum of the records' memory sizes. */
    method GetMemorySizeSize() returns (r: int)
      requires Valid()
      ensures r == MemorySum(kvBuf)
    {
      r := memorySize;
    }

    /** `getKeyValues()`: the records in block order. */
    method GetKeyValues() returns (r: seq<KeyValue>)
      ensures r == kvBuf
    {
      r := kvBuf;
    }

    /** `iterator(filter)`: a cursor at the first record. */
    method Iterator(filter: KeyValueFilter) returns (it: DataBlockIterator)
      ensures fresh(it) && it.reader == this && it.filter == filter && it.list == kvBuf && it.pos == 0
    {
      it := new DataBlockIterator(this, filter);
    }

    /** `equals(o)`: the same reader, or one whose record list is equal. */
    method Equals(that: BlockReader?) returns (r: bool)
      ensures r <==> that != null && ListEquals(kvBuf, that.kvBuf)
    {
      if this == that {
        ListEqualsReflexive(kvBuf);
        return true;
      }
      if that == null {
        return false;
      }
      r := ListEquals(kvBuf, that.kvBuf);
    }
  }

  // ---------------------------------------------------------------------------
  // The cursor
  // ---------------------------------------------------------------------------

  /** `filter.isVisible(kv)` for a filter at snapshot `version`. */
  predicate Visible(version: int, kv: KeyValue)
  {
    version >= kv.sequenceId
  }

  /**
   * Where `fetchNext` leaves the cursor: the first index at or after `from`
   * holding a visible record, or `from` itself once it is at or past the end.
   */
  function FirstVisible(list: seq<KeyValue>, version: int, from: int): (r: int)
    requires 0 <= from
    ensures from <= r
    ensures from <= |list| ==> r <= |list|
    ensures from >= |list| ==> r == from
    ensures forall i | from <= i < r :: !Visible(version, list[i])
    ensures r < |list| ==> Visible(version, list[r])
    decreases |list| - from
  {
    if from >= |list| || Visible(version, list[from]) then from
    else FirstVisible(list, version, from + 1)
  }

  /** The visible records of `list` from index `from` on, in list order. */
  function VisibleFrom(list: seq<KeyValue>, version: int, from: int): seq<KeyValue>
    requires 0 <= from
    decreases |list| - from
  {
    if from >= |list| then []
    else if Visible(version, list[from]) then [list[from]] + VisibleFrom(list, version, from + 1)
    else VisibleFrom(list, version, from + 1)
  }

  /**
   * The invisible records before the cursor's next stop contribute nothing:
   * the visible records from `from` on are the one at `FirstVisible` and
   * those after it, or none once the list is exhausted.  So successive
   * `next()` calls return the visible records in list order.
   */
  lemma {:induction false} NextYieldsVisible(list: seq<KeyValue>, version: int, from: int)
    requires 0 <= from
    ensures var p := FirstVisible(list, version, from);
      if p < |list| then VisibleFrom(list, version, from) == [list[p]] + VisibleFrom(list, version, p + 1)
      else VisibleFrom(list, version, from) == []
    decreases |list| - from
  {
    if from < |list| && !Visible(version, list[from]) {
      NextYieldsVisible(list, version, from + 1);
    }
  }

  /**
   * Moving the cursor past invisible records loses nothing: the visible
   * records from `fetchNext`'s stop are those from the start, and there is
   * one exactly when the stop is inside the list.
   */
  lemma {:induction false} SkipsToFirstVisible(list: seq<KeyValue>, version: int, from: int)
    requires 0 <= from
    ensures VisibleFrom(list, version, FirstVisible(list, version, from)) == VisibleFrom(list, version, from)
    ensures FirstVisible(list, version, from) < |list| <==> VisibleFrom(list, version, from) != []
  {
    NextYieldsVisible(list, version, from);
    var p := FirstVisible(list, version, from);
    if p < |list| {
      assert VisibleFrom(list, version, p) == [list[p]] + VisibleFrom(list, version, p + 1);
    }
  }

  /** A parsed block holds fewer records than a Java `int` can count. */
  lemma {:induction false} ParsedBlockFits(buf: seq<Byte>, size: int, kvs: seq<KeyValue>)
    requires |buf| <= INT32_MAX
    requires ParseBlock(Some(buf), 0, size) == Ok(kvs)
    ensures |kvs| <= INT32_MAX
  {
    ParsedBlockIsSerialized(buf, 0, size, kvs);
    RecordsLength(kvs);
  }

  /** The test of `seekTo`'s binary search as written: visible and not before `target`. */
  predicate AtOrAfter(version: int, target: KeyValue, kv: KeyValue)
  {
    Visible(version, kv) && KvCompare(kv, target) >= 0
  }

  /**
   * The binary search of `seekTo` over the index range [l, r], given the
   * outcome of its test at every index: it halves the range as if the test
   * held exactly on a suffix of the list.
   */
  function Search(test: seq<bool>, l: int, r: int): (res: int)
    requires 0 <= l <= r + 1 <= |test|
    ensures l <= res <= r + 1
    decreases r - l
  {
    if l > r then l
    else
      var m := (r - l) / 2 + l;
      if test[m] then Search(test, l, m - 1) else Search(test, m + 1, r)
  }

  /** The test as written, at every index: visible and not before `target`. */
  function TestsAsWritten(list: seq<KeyValue>, version: int, target: KeyValue): (t: seq<bool>)
    ensures |t| == |list|
  {
    seq(|list|, i requires 0 <= i < |list| => AtOrAfter(version, target, list[i]))
  }

  /**
   * Where `seekTo` as written leaves the cursor.  Its test does not hold on
   * a suffix once a record newer than the snapshot sits among visible ones.
   */
  function SeekPosAsWritten(list: seq<KeyValue>, version: int, target: KeyValue): (p: int)
    ensures 0 <= p <= |list|
  {
    Search(TestsAsWritten(list, version, target), 0, |list| - 1)
  }

  /**
   * A sorted block of three records, the middle one newer than snapshot 5:
   * `seekTo` as written leaves the cursor at index 2, so iteration yields
   * only the last record and misses the first, which is visible and after
   * the target.
   */
  lemma {:induction false} SeekAsWrittenSkipsVisible()
    ensures Sorted([KeyValue([2], [], Put, 1), KeyValue([3], [], Put, 9), KeyValue([4], [], Put, 1)])
    ensures SeekPosAsWritten([KeyValue([2], [], Put, 1), KeyValue([3], [], Put, 9), KeyValue([4], [], Put, 1)],
      5, KeyValue([1], [], Put, 0)) == 2
    ensures AtOrAfter(5, KeyValue([1], [], Put, 0), KeyValue([2], [], Put, 1))
    ensures VisibleFrom([KeyValue([2], [], Put, 1), KeyValue([3], [], Put, 9), KeyValue([4], [], Put, 1)], 5, 2)
      == [KeyValue([4], [], Put, 1)]
  {
    var b, c, d := KeyValue([2], [], Put, 1), KeyValue([3], [], Put, 9), KeyValue([4], [], Put, 1);
    var target := KeyValue([1], [], Put, 0);
    var list := [b, c, d];
    assert KvCompare(b, c) < 0 && KvCompare(c, d) < 0 && KvCompare(b, d) < 0;
    assert KvCompare(b, target) > 0 && KvCompare(d, target) > 0;
    var asWritten := TestsAsWritten(list, 5, target);
    assert asWritten == [true, false, true];
    assert Search(asWritten, 0, 2) == Search(asWritten, 2, 2) == 2;
  }

  /** On the same block the corrected search stops at index 0, and iteration yields both visible records. */
  lemma {:induction false} SeekFindsFirstVisible()
    ensures SeekPos([KeyValue([2], [], Put, 1), KeyValue([3], [], Put, 9), KeyValue([4], [], Put, 1)],
      KeyValue([1], [], Put, 0)) == 0
    ensures VisibleFrom([KeyValue([2], [], Put, 1), KeyValue([3], [], Put, 9), KeyValue([4], [], Put, 1)], 5, 0)
      == [KeyValue([2], [], Put, 1), KeyValue([4], [], Put, 1)]
  {
    var b, c, d := KeyValue([2], [], Put, 1), KeyValue([3], [], Put, 9), KeyValue([4], [], Put, 1);
    var target := KeyValue([1], [], Put, 0);
    var list := [b, c, d];
    assert KvCompare(b, target) > 0 && KvCompare(c, target) > 0 && KvCompare(d, target) > 0;
    var corrected := Tests(list, target);
    assert corrected == [true, true, true];
    assert Search(corrected, 0, 2) == Search(corrected, 0, 0) == 0;
    assert VisibleFrom(list, 5, 1) == VisibleFrom(list, 5, 2);
  }

  /**
   * The test `seekTo` evidently intends, at every index: not before
   * `target` in the record order, which holds on a suffix of a sorted
   * block; `fetchNext` then skips the invisible records from there.
   */
  function Tests(list: seq<KeyValue>, target: KeyValue): (t: seq<bool>)
    ensures |t| == |list|
  {
    seq(|list|, i requires 0 <= i < |list| => KvCompare(list[i], target) >= 0)
  }

  /** Where the corrected `seekTo` leaves the cursor. */
  function SeekPos(list: seq<KeyValue>, target: KeyValue): (p: int)
    ensures 0 <= p <= |list|
  {
    Search(Tests(list, target), 0, |list| - 1)
  }

  /** The loop of `seekTo` with the corrected test; `(r - l) / 2 + l` cannot overflow. */
  method SeekIndex(list: seq<KeyValue>, target: KeyValue) returns (l: int)
    requires |list| <= INT32_MAX
    ensures l == SeekPos(list, target)
  {
    ghost var tests := Tests(list, target);
    l := 0;
    var r := |list| - 1;
    while l <= r
      invariant 0 <= l <= r + 1 <= |list|
      invariant Search(tests, l, r) == SeekPos(list, target)
      decreases r - l
    {
      var m := (r - l) / 2 + l;
      var kv := list[m];
      assert tests[m] <==> KvCompare(kv, target) >= 0;
      if KvCompare(kv, target) >= 0 {
        r := m - 1;
      } else {
        l := m + 1;
      }
    }
  }

  /** The test fails just before where the search ends, when it fails just before the range. */
  lemma {:induction false} SearchAfterFailure(test: seq<bool>, l: int, r: int, p: int)
    requires 0 <= l <= r + 1 <= |test|
    requires l > 0 ==> !test[l - 1]
    requires p == Search(test, l, r)
    ensures 0 < p ==> !test[p - 1]
    decreases r - l
  {
    if l <= r {
      var m := (r - l) / 2 + l;
      if test[m] {
        SearchAfterFailure(test, l, m - 1, p);
      } else {
        SearchAfterFailure(test, m + 1, r, p);
      }
    }
  }

  /** The test holds where the search ends, when it holds just after the range. */
  lemma {:induction false} SearchAtSuccess(test: seq<bool>, l: int, r: int, p: int)
    requires 0 <= l <= r + 1 <= |test|
    requires r + 1 < |test| ==> test[r + 1]
    requires p == Search(test, l, r)
    ensures p < |test| ==> test[p]
    decreases r - l
  {
    if l <= r {
      var m := (r - l) / 2 + l;
      if test[m] {
        SearchAtSuccess(test, l, m - 1, p);
      } else {
        SearchAtSuccess(test, m + 1, r, p);
      }
    }
  }

  /**
   * On a sorted block the corrected seek position splits the records: all
   * before it are before `target`, none from it on is.
   */
  lemma {:induction false} SeekPosSplits(list: seq<KeyValue>, target: KeyValue)
    requires Sorted(list)
    ensures forall i | 0 <= i < SeekPos(list, target) :: KvLess(list[i], target)
    ensures forall i | SeekPos(list, target) <= i < |list| :: !KvLess(list[i], target)
  {
    var p := SeekPos(list, target);
    SearchAfterFailure(Tests(list, target), 0, |list| - 1, p);
    SearchAtSuccess(Tests(list, target), 0, |list| - 1, p);
    forall i | 0 <= i < p
      ensures KvLess(list[i], target)
    {
      var last := list[p - 1];
      assert KvLess(last, target);
      if i < p - 1 {
        assert KvLessEq(list[i], last);
        KvMixedTransitive(list[i], last, target);
      }
    }
    forall i | p <= i < |list|
      ensures !KvLess(list[i], target)
    {
      var first := list[p];
      assert !KvLess(first, target);
      if p < i {
        assert KvLessEq(first, list[i]);
        KvMixedTransitive(first, list[i], target);
      }
    }
  }

  /** The visible records of `list` from index `from` on that are not before `target`, in list order. */
  function VisibleAtLeast(list: seq<KeyValue>, version: int, target: KeyValue, from: int): seq<KeyValue>
    requires 0 <= from
    decreases |list| - from
  {
    if from >= |list| then []
    else if AtOrAfter(version, target, list[from]) then [list[from]] + VisibleAtLeast(list, version, target, from + 1)
    else VisibleAtLeast(list, version, target, from + 1)
  }

  /**
   * After the corrected `seekTo(target)` on a sorted block, the cursor yields
   * exactly the visible records not before `target`, in block order.
   */
  lemma {:induction false} SeekYieldsAtLeast(list: seq<KeyValue>, version: int, target: KeyValue)
    requires Sorted(list)
    ensures VisibleFrom(list, version, SeekPos(list, target)) == VisibleAtLeast(list, version, target, 0)
  {
    SeekPosSplits(list, target);
    SkipBefore(list, version, target, 0, SeekPos(list, target));
    AllAtLeast(list, version, target, SeekPos(list, target));
  }

  /** Records before `target` contribute nothing to `VisibleAtLeast`. */
  lemma {:induction false} SkipBefore(list: seq<KeyValue>, version: int, target: KeyValue, from: int, p: int)
    requires 0 <= from <= p <= |list|
    requires forall i | from <= i < p :: KvLess(list[i], target)
    ensures VisibleAtLeast(list, version, target, from) == VisibleAtLeast(list, version, target, p)
    decreases p - from
  {
    if from < p {
      SkipBefore(list, version, target, from + 1, p);
    }
  }

  /** Where no record is before `target`, the two selections agree. */
  lemma {:induction false} AllAtLeast(list: seq<KeyValue>, version: int, target: KeyValue, from: int)
    requires 0 <= from
    requires forall i | from <= i < |list| :: !KvLess(list[i], target)
    ensures VisibleFrom(list, version, from) == VisibleAtLeast(list, version, target, from)
    decreases |list| - from
  {
    if from < |list| {
      AllAtLeast(list, version, target, from + 1);
    }
  }

  class DataBlockIterator {
    var reader: BlockReader
    var filter: KeyValueFilter
    var list: seq<KeyValue>
    var pos: int

    /** The cursor only moves forward from 0. */
    predicate Valid()
      reads this
    {
      0 <= pos
    }

    /** `DataBlockIterator(reader, filter)`: the reader's records, cursor at 0. */
    constructor(reader: BlockReader, filter: KeyValueFilter)
      ensures this.reader == reader && this.filter == filter && list == reader.kvBuf && pos == 0
      ensures Valid()
    {
      this.reader := reader;
      this.filter := filter;
      this.list := reader.kvBuf;
      this.pos := 0;
    }

    /** `fetchNext()`: moves past invisible records only, and returns the visible one reached, if any. */
    method FetchNext() returns (r: Option<KeyValue>)
      requires Valid()
      modifies this
      ensures Valid()
      ensures pos == FirstVisible(list, filter.version, old(pos))
      ensures r == (if pos < |list| then Some(list[pos]) else None)
      ensures reader == old(reader) && filter == old(filter) && list == old(list)
    {
      while pos < |list|
        invariant old(pos) <= pos
        invariant reader == old(reader) && filter == old(filter) && list == old(list)
        invariant FirstVisible(list, filter.version, pos) == FirstVisible(list, filter.version, old(pos))
        decreases |list| - pos
      {
        if filter.version >= list[pos].sequenceId {
          return Some(list[pos]);
        } else {
          pos := pos + 1;
        }
      }
      return None;
    }

    /** `hasNext()`: whether a visible record remains; the cursor moves to it. */
    method HasNext() returns (b: bool)
      requires Valid()
      modifies this
      ensures Valid()
      ensures pos == FirstVisible(list, filter.version, old(pos))
      ensures b <==> pos < |list|
      ensures reader == old(reader) && filter == old(filter) && list == old(list)
    {
      var kv := FetchNext();
      b := kv.Some?;
    }

    /** `next()`: the next visible record (null when none is left); the cursor moves one past it. */
    method Next() returns (r: Option<KeyValue>)
      requires Valid()
      modifies this
      ensures Valid()
      ensures pos == FirstVisible(list, filter.version, old(pos)) + 1
      ensures r == (if pos - 1 < |list| then Some(list[pos - 1]) else None)
      ensures reader == old(reader) && filter == old(filter) && list == old(list)
    {
      r := FetchNext();
      pos := pos + 1;
    }

    /** `seekTo(target)`, with the corrected search: the cursor moves to the first record not before `target`. */
    method SeekTo(target: KeyValue)
      requires |list| <= INT32_MAX
      modifies this
      ensures Valid()
      ensures pos == SeekPos(list, target)
      ensures reader == old(reader) && filter == old(filter) && list == old(list)
    {
      pos := SeekIndex(list, target);
    }
  }
}
