/**
 * `BaseLog`: the write-ahead log.  A single consumer takes the queued
 * entries in order, numbers them 1, 2, 3, ..., and routes each by the WAL
 * level: SKIP hands it straight to the read queue, ASYNC hands it over and
 * buffers its bytes, SYNC and FSYNC buffer and sync them (the tail reader
 * then parses the synced bytes back).  `LogWriter` buffers the bytes and
 * appends them to the log file on sync; `LogReader` parses a window of the
 * file back into records.
 *
 * The file is the sequence of bytes written to it, and the shared
 * `logCurrPos` counter is a field of the writer.
 */
module BaseLogs {
  import opened Wrappers
  import opened ByteUtils
  import opened KeyValues
  import opened Blocks
  import opened WriteLogWals

  datatype WalLevel = Skip | Async | Sync | Fsync

  // ---------------------------------------------------------------------------
  // LogWriter
  // ---------------------------------------------------------------------------

  /**
   * The writer: the bytes written to the file, the bytes in the buffer (its
   * position), `size`, `currPos` and whether the channel is open.
   */
  datatype WriterState = WriterState(file: seq<Byte>, buffer: seq<Byte>, size: int, currPos: int, open: bool)

  /** Everything appended so far, synced or not. */
  function Logged(w: WriterState): seq<Byte>
  {
    w.file + w.buffer
  }

  /** The writer the constructor leaves: an empty file and buffer. */
  function NewWriter(): WriterState
  {
    WriterState([], [], 0, 0, true)
  }

  /**
   * `sync()`: nothing once the channel is closed; otherwise the buffered
   * bytes go to the file, `currPos` advances by their number (an int) and
   * the buffer's position returns to 0.
   */
  function SyncStep(w: WriterState): WriterState
  {
    if !w.open then w
    else w.(file := w.file + w.buffer, currPos := Wrap32(w.currPos + |w.buffer|), buffer := [])
  }

  /**
   * `append(logWal)`: nothing once the channel is closed; a null record is a
   * null dereference; otherwise a sync first when `size` plus the entry
   * exceeds the buffer size, then `size` grows by the entry (an int, never
   * reset) and the entry's bytes go into the buffer, which overflows when
   * they do not fit.
   */
  function AppendStep(w: WriterState, maxSize: int, kv: Option<KeyValue>): (WriterState, Result<()>)
  {
    if !w.open then (w, Ok(()))
    else if kv.None? then (w, Err(NullPointer))
    else
      var n := SerializedSize(kv.value);
      var w1 := if Wrap32(w.size + n) > maxSize then SyncStep(w) else w;
      var w2 := w1.(size := Wrap32(w1.size + n));
      if |w2.buffer| + n > maxSize then (w2, Err(BufferOverflow))
      else (w2.(buffer := w2.buffer + Serialize(kv.value)), Ok(()))
  }

  /**
   * What holds of the writer until an append fails: the buffer is within
   * its capacity, `size` counts every byte appended and `currPos` every
   * byte synced, both as ints.
   */
  ghost predicate WriterInv(w: WriterState, maxSize: int)
  {
    0 <= maxSize && |w.buffer| <= maxSize
    && w.size == Wrap32(|Logged(w)|) && w.currPos == Wrap32(|w.file|)
  }

  lemma {:induction false} NewWriterValid(maxSize: int)
    requires 0 <= maxSize
    ensures WriterInv(NewWriter(), maxSize) && Logged(NewWriter()) == []
  {
    NarrowInRange(0, 4);
  }

  /** A sync keeps the invariant and what was appended; afterwards nothing is buffered and all of it is counted. */
  lemma {:induction false} SyncKeeps(w: WriterState, maxSize: int)
    requires WriterInv(w, maxSize)
    ensures WriterInv(SyncStep(w), maxSize)
    ensures Logged(SyncStep(w)) == Logged(w) && SyncStep(w).open == w.open && SyncStep(w).size == w.size
    ensures w.open ==> SyncStep(w).buffer == [] && SyncStep(w).file == Logged(w)
  {
    if w.open {
      NarrowAdd(|w.file|, |w.buffer|, 4);
    }
  }

  /**
   * A successful append keeps the invariant and adds exactly the entry's
   * bytes to what was appended; a closed writer stays as it is.
   */
  lemma {:induction false} AppendKeeps(w: WriterState, maxSize: int, kv: Option<KeyValue>)
    requires WriterInv(w, maxSize) && AppendStep(w, maxSize, kv).1.Ok?
    ensures WriterInv(AppendStep(w, maxSize, kv).0, maxSize)
    ensures AppendStep(w, maxSize, kv).0.open == w.open
    ensures !w.open ==> AppendStep(w, maxSize, kv).0 == w
    ensures w.open ==> kv.Some? && Logged(AppendStep(w, maxSize, kv).0) == Logged(w) + Serialize(kv.value)
  {
    if w.open {
      var n := SerializedSize(kv.value);
      SyncKeeps(w, maxSize);
      var w1 := if Wrap32(w.size + n) > maxSize then SyncStep(w) else w;
      SerializeLength(kv.value);
      NarrowAdd(|Logged(w1)|, n, 4);
      assert Logged(AppendStep(w, maxSize, kv).0) == Logged(w1) + Serialize(kv.value);
    }
  }

  /**
   * Before the int counters wrap, an append fails only for an entry larger
   * than the whole buffer.
   */
  lemma {:induction false} AppendFits(w: WriterState, maxSize: int, kv: KeyValue)
    requires WriterInv(w, maxSize) && |Logged(w)| + SerializedSize(kv) <= INT32_MAX
    ensures AppendStep(w, maxSize, Some(kv)).1.Err? <==> w.open && SerializedSize(kv) > maxSize
  {
    Wrap32Identity(|Logged(w)|);
    Wrap32Identity(|Logged(w)| + SerializedSize(kv));
    SerializeLength(kv);
  }

  /**
   * `size` is never reset by a sync, so the sync before an append depends
   * on every byte appended so far: before the counters wrap, an append
   * syncs the buffer first exactly when all bytes appended, the entry's
   * included, exceed the buffer size.  Once that many bytes have been
   * logged, every append syncs first.
   */
  lemma {:induction false} AppendSyncsOnceFull(w: WriterState, maxSize: int, kv: KeyValue)
    requires WriterInv(w, maxSize) && w.open && |Logged(w)| + SerializedSize(kv) <= INT32_MAX
    ensures |Logged(w)| + SerializedSize(kv) > maxSize ==> AppendStep(w, maxSize, Some(kv)).0.file == Logged(w)
    ensures |Logged(w)| + SerializedSize(kv) <= maxSize ==> AppendStep(w, maxSize, Some(kv)).0.file == w.file
  {
    Wrap32Identity(|Logged(w)|);
    Wrap32Identity(|Logged(w)| + SerializedSize(kv));
  }

  class LogWriter {
    /** The buffer's capacity, `bufferSize`. */
    const maxSize: int
    var file: seq<Byte>
    var buffer: seq<Byte>
    var size: int
    var currPos: int
    var open: bool

    function State(): WriterState
      reads this
    {
      WriterState(file, buffer, size, currPos, open)
    }

    /** `new LogWriter(...)`: the file is recreated empty; the buffer has `bufferSize` bytes. */
    constructor(bufferSize: int)
      requires bufferSize >= 0
      ensures maxSize == bufferSize && State() == NewWriter()
      ensures WriterInv(State(), maxSize)
    {
      maxSize := bufferSize;
      file := [];
      buffer := [];
      size := 0;
      currPos := 0;
      open := true;
      new;
      NewWriterValid(bufferSize);
    }

    /** `append(logWal)`. */
    method Append(entry: WriteLogWal) returns (r: Result<()>)
      modifies this
      ensures (State(), r) == AppendStep(old(State()), maxSize, entry.kv)
    {
      if !open {
        return Ok(());
      }
      if entry.kv.None? {
        return Err(NullPointer);
      }
      var n := SerializedSize(entry.kv.value);
      if Wrap32(size + n) > maxSize {
        Sync();
      }
      size := Wrap32(size + n);
      if |buffer| + n > maxSize {
        return Err(BufferOverflow);
      }
      buffer := buffer + Serialize(entry.kv.value);
      r := Ok(());
    }

    /** `sync()`. */
    method Sync()
      modifies this
      ensures State() == SyncStep(old(State()))
    {
      if !open {
        return;
      }
      file := file + buffer;
      currPos := Wrap32(currPos + |buffer|);
      buffer := [];
    }

    /** `close()`: a last sync, then the channel closes. */
    method Close()
      modifies this
      ensures State() == SyncStep(old(State())).(open := false)
    {
      Sync();
      open := false;
    }
  }

  // ---------------------------------------------------------------------------
  // LogReader
  // ---------------------------------------------------------------------------

  /**
   * The `len` bytes read at `offset`: a negative length fails the buffer
   * allocation, a negative offset the channel read, an empty buffer reads
   * 0 bytes wherever it is placed, and a file holding fewer bytes fails the
   * `assert l == len`.
   */
  function ReadWindow(file: seq<Byte>, offset: int, len: int): (r: Result<seq<Byte>>)
    ensures r.Ok? ==> |r.value| == len
  {
    if len < 0 then Err(NegativeCapacity)
    else if offset < 0 then Err(NegativePosition)
    else if len == 0 then Ok([])
    else if offset + len > |file| then Err(AssertionFailed)
    else Ok(file[offset..offset + len])
  }

  /** `entries` followed by the records of `rest`, or the error of `rest`. */
  function Prepend(entries: seq<KeyValue>, rest: Result<seq<KeyValue>>): Result<seq<KeyValue>>
  {
    var tail :- rest;
    Ok(entries + tail)
  }

  /**
   * The loop of `read` with record parser `parse`: records parsed back to
   * back from `pos` until exactly `len` bytes are consumed.  A record that
   * fails to parse ends it with its error, and one that runs past `len`
   * fails `assert pos <= len`.
   */
  function ParseLog(parse: int -> Result<KeyValue>, pos: int, len: int): Result<seq<KeyValue>>
    requires 0 <= pos <= len
    decreases len - pos
  {
    if pos == len then Ok([])
    else
      var kv :- parse(pos);
      var next := pos + SerializedSize(kv);
      if next > len then Err(AssertionFailed)
      else Prepend([kv], ParseLog(parse, next, len))
  }

  /** `read(offset, len)`: the window, then its records. */
  function LogRead(file: seq<Byte>, offset: int, len: int): Result<seq<KeyValue>>
  {
    var buf :- ReadWindow(file, offset, len);
    ParseLog(RecordAt(buf), 0, len)
  }

  lemma {:induction false} PrependNothing(rest: Result<seq<KeyValue>>)
    ensures Prepend([], rest) == rest
  {
    if rest.Ok? {
      assert [] + rest.value == rest.value;
    }
  }

  /** One record read off the front of the log window. */
  lemma {:induction false} ParseLogUnfold(parse: int -> Result<KeyValue>, pos: int, len: int, entries: seq<KeyValue>)
    requires 0 <= pos < len
    ensures parse(pos).Err? ==> Prepend(entries, ParseLog(parse, pos, len)) == Err(parse(pos).error)
    ensures parse(pos).Ok? && pos + SerializedSize(parse(pos).value) > len ==>
              Prepend(entries, ParseLog(parse, pos, len)) == Err(AssertionFailed)
    ensures parse(pos).Ok? && pos + SerializedSize(parse(pos).value) <= len ==>
              var kv := parse(pos).value;
              Prepend(entries, ParseLog(parse, pos, len)) == Prepend(entries + [kv], ParseLog(parse, pos + SerializedSize(kv), len))
  {
    if parse(pos).Ok? {
      var kv := parse(pos).value;
      var next := pos + SerializedSize(kv);
      if next <= len && ParseLog(parse, next, len).Ok? {
        var rest := ParseLog(parse, next, len).value;
        assert entries + ([kv] + rest) == entries + [kv] + rest;
      }
    }
  }

  /** `read(offset, len)`: the window is read, then its records parsed. */
  method Read(file: seq<Byte>, offset: int, len: int) returns (r: Result<seq<KeyValue>>)
    ensures r == LogRead(file, offset, len)
  {
    var buf :- ReadWindow(file, offset, len);
    r := ReadRecords(RecordAt(buf), len);
  }

  /** The loop of `read`: records parsed one after the other until `len` bytes are consumed. */
  method ReadRecords(parse: int -> Result<KeyValue>, len: int) returns (r: Result<seq<KeyValue>>)
    requires 0 <= len
    ensures r == ParseLog(parse, 0, len)
  {
    var entries: seq<KeyValue> := [];
    var pos := 0;
    PrependNothing(ParseLog(parse, 0, len));
    while pos != len
      invariant 0 <= pos <= len
      invariant ParseLog(parse, 0, len) == Prepend(entries, ParseLog(parse, pos, len))
      decreases len - pos
    {
      ParseLogUnfold(parse, pos, len, entries);
      var entry := parse(pos);
      if entry.Err? {
        return Err(entry.error);
      }
      pos := pos + SerializedSize(entry.value);
      entries := entries + [entry.value];
      if pos > len {
        return Err(AssertionFailed);
      }
    }
    assert entries + [] == entries;
    r := Ok(entries);
  }

  /** The first record's size split off the rest. */
  lemma {:induction false} TotalSizeHead(kvs: seq<KeyValue>)
    requires kvs != []
    ensures TotalSize(kvs) == SerializedSize(kvs[0]) + TotalSize(kvs[1..])
    decreases |kvs|
  {
    var n := |kvs|;
    var init, last := kvs[..n - 1], kvs[n - 1];
    if n == 1 {
      assert kvs[1..] == [] && init == [];
    } else {
      TotalSizeHead(init);
      assert init[0] == kvs[0];
      assert kvs[1..] == init[1..] + [last];
      TotalSizeSnoc(init[1..], last);
    }
  }

  /** Where record `i + 1` of `kv` followed by `rest` starts: after `kv`, where record `i` of `rest` starts. */
  lemma {:induction false} StartAfterFront(kv: KeyValue, rest: seq<KeyValue>, pos: int, i: int)
    requires 0 <= i <= |rest|
    ensures RecordStart([kv] + rest, pos, i + 1) == RecordStart(rest, pos + SerializedSize(kv), i)
    ensures RecordStart([kv] + rest, pos, 0) == pos
  {
    var kvs := [kv] + rest;
    assert kvs[..i + 1][0] == kv && kvs[..i + 1][1..] == rest[..i];
    TotalSizeHead(kvs[..i + 1]);
    assert kvs[..0] == [];
  }

  /** The first record parsed at the start, the rest where it ends. */
  lemma {:induction false} ParsesEachTail(parse: int -> Result<KeyValue>, pos: int, kvs: seq<KeyValue>)
    requires kvs != [] && ParsesEach(parse, pos, kvs)
    ensures parse(pos) == Ok(kvs[0]) && ParsesEach(parse, pos + SerializedSize(kvs[0]), kvs[1..])
  {
    var kv, rest := kvs[0], kvs[1..];
    assert kvs == [kv] + rest;
    StartAfterFront(kv, rest, pos, 0);
    assert parse(RecordStart(kvs, pos, 0)) == Ok(kvs[0]);
    forall i | 0 <= i < |rest|
      ensures parse(RecordStart(rest, pos + SerializedSize(kv), i)) == Ok(rest[i])
    {
      StartAfterFront(kv, rest, pos, i);
      assert parse(RecordStart(kvs, pos, i + 1)) == Ok(kvs[i + 1]);
    }
  }

  /** Records each parsed where the one before ends make up the loop's result. */
  lemma {:induction false} ParseLogEach(parse: int -> Result<KeyValue>, pos: int, kvs: seq<KeyValue>)
    requires 0 <= pos && ParsesEach(parse, pos, kvs)
    ensures ParseLog(parse, pos, pos + TotalSize(kvs)) == Ok(kvs)
    decreases |kvs|
  {
    if kvs != [] {
      var kv, rest := kvs[0], kvs[1..];
      var next, end := pos + SerializedSize(kv), pos + TotalSize(kvs);
      TotalSizeHead(kvs);
      assert end == next + TotalSize(rest);
      ParsesEachTail(parse, pos, kvs);
      ParseLogEach(parse, next, rest);
      ParseLogUnfold(parse, pos, end, []);
      PrependNothing(ParseLog(parse, pos, end));
      assert [] + [kv] == [kv] && [kv] + rest == kvs;
    }
  }

  /** A record parsed at the start, in front of records parsed where it ends. */
  lemma {:induction false} ParsesEachCons(parse: int -> Result<KeyValue>, pos: int, kv: KeyValue, rest: seq<KeyValue>)
    requires parse(pos) == Ok(kv) && ParsesEach(parse, pos + SerializedSize(kv), rest)
    ensures ParsesEach(parse, pos, [kv] + rest)
    ensures TotalSize([kv] + rest) == SerializedSize(kv) + TotalSize(rest)
  {
    var kvs := [kv] + rest;
    assert kvs[0] == kv && kvs[1..] == rest;
    TotalSizeHead(kvs);
    forall i | 0 <= i < |kvs|
      ensures parse(RecordStart(kvs, pos, i)) == Ok(kvs[i])
    {
      StartAfterFront(kv, rest, pos, 0);
      if i > 0 {
        StartAfterFront(kv, rest, pos, i - 1);
        assert parse(RecordStart(rest, pos + SerializedSize(kv), i - 1)) == Ok(rest[i - 1]);
      }
    }
  }

  /** Conversely, what the loop accepts is records each parsed where the one before ends, covering the window. */
  lemma {:induction false} ParseLogParsesEach(parse: int -> Result<KeyValue>, pos: int, len: int)
    requires 0 <= pos <= len && ParseLog(parse, pos, len).Ok?
    ensures ParsesEach(parse, pos, ParseLog(parse, pos, len).value)
    ensures len == pos + TotalSize(ParseLog(parse, pos, len).value)
    decreases len - pos
  {
    var kvs := ParseLog(parse, pos, len).value;
    if pos == len {
      assert kvs == [];
    } else {
      ParseLogUnfold(parse, pos, len, []);
      PrependNothing(ParseLog(parse, pos, len));
      var kv := parse(pos).value;
      var next := pos + SerializedSize(kv);
      ParseLogParsesEach(parse, next, len);
      var rest := ParseLog(parse, next, len).value;
      assert kvs == [kv] + rest;
      ParsesEachCons(parse, pos, kv, rest);
    }
  }

  /** Valid records serialised back to back parse back, in order, ending exactly at their end. */
  lemma {:induction false} ParseLogRecords(kvs: seq<KeyValue>, buf: seq<Byte>, pos: int)
    requires AllValid(kvs) && |buf| <= INT32_MAX && 0 <= pos && pos + TotalSize(kvs) <= |buf|
    requires buf[pos..pos + TotalSize(kvs)] == Records(kvs)
    ensures ParseLog(RecordAt(buf), pos, pos + TotalSize(kvs)) == Ok(kvs)
  {
    RecordsReadable(kvs, buf, pos);
    ParseLogEach(RecordAt(buf), pos, kvs);
  }

  /**
   * Conversely, whatever the loop accepts is valid records whose bytes are
   * exactly the window it consumed.
   */
  lemma {:induction false} ParsedLogIsRecords(buf: seq<Byte>, pos: int, len: int)
    requires |buf| <= INT32_MAX && 0 <= pos <= len <= |buf| && ParseLog(RecordAt(buf), pos, len).Ok?
    ensures var kvs := ParseLog(RecordAt(buf), pos, len).value;
            AllValid(kvs) && len == pos + TotalSize(kvs) && buf[pos..len] == Records(kvs)
  {
    ParseLogParsesEach(RecordAt(buf), pos, len);
    ReadRecordsAreSerialized(ParseLog(RecordAt(buf), pos, len).value, buf, pos);
  }

  /**
   * What the tail reader does: a window that starts and ends at record
   * boundaries of the file reads back exactly the records in it.
   */
  lemma {:induction false} ReadRoundTrip(before: seq<KeyValue>, kvs: seq<KeyValue>, after: seq<Byte>)
    requires AllValid(before) && AllValid(kvs)
    requires TotalSize(before) + TotalSize(kvs) + |after| <= INT32_MAX
    ensures LogRead(Records(before) + Records(kvs) + after, TotalSize(before), TotalSize(kvs)) == Ok(kvs)
  {
    var file := Records(before) + Records(kvs) + after;
    RecordsLength(before);
    RecordsLength(kvs);
    var buf := file[TotalSize(before)..TotalSize(before) + TotalSize(kvs)];
    assert buf == Records(kvs);
    assert buf[0..TotalSize(kvs)] == Records(kvs);
    ParseLogRecords(kvs, buf, 0);
  }

  /**
   * And every read that succeeds returns valid records that serialise to
   * exactly the bytes of the window; an empty read returns no records
   * wherever it is placed.
   */
  lemma {:induction false} LogReadIsRecords(file: seq<Byte>, offset: int, len: int)
    requires |file| <= INT32_MAX && LogRead(file, offset, len).Ok?
    ensures 0 <= offset && 0 <= len && (len == 0 || offset + len <= |file|)
    ensures AllValid(LogRead(file, offset, len).value) && len == TotalSize(LogRead(file, offset, len).value)
    ensures len == 0 ==> LogRead(file, offset, len).value == []
    ensures len > 0 ==> file[offset..offset + len] == Records(LogRead(file, offset, len).value)
  {
    var buf := ReadWindow(file, offset, len).value;
    ParsedLogIsRecords(buf, 0, len);
    assert buf[0..len] == buf;
  }

  // ---------------------------------------------------------------------------
  // The consumer's step
  // ---------------------------------------------------------------------------

  /** A queued put or delete: its op, key and value. */
  datatype Request = Request(op: Op, key: seq<Byte>, value: seq<Byte>)

  /** The consumer's state: the last sequence id, the read queue and the writer. */
  datatype LogState = LogState(sequenceId: int, readQueue: seq<KeyValue>, writer: WriterState)

  /**
   * One write entry: the next sequence id (`incrementAndGet` on a long),
   * the record `setSeq` builds, then routing by WAL level.  A failed record
   * or append ends the step with its error.
   */
  function WalStep(st: LogState, level: WalLevel, maxSize: int, req: Request): (LogState, Result<()>)
  {
    var seqId := Wrap64(st.sequenceId + 1);
    var rec := EntryRecord(req.op, req.key, req.value, seqId);
    if rec.Err? then (st.(sequenceId := seqId), Err(rec.error))
    else Route(st.(sequenceId := seqId), level, maxSize, rec.value)
  }

  /**
   * Routing a numbered record by WAL level: SKIP hands it to the read queue,
   * ASYNC hands it over and appends it, SYNC and FSYNC append it and sync.
   */
  function Route(st: LogState, level: WalLevel, maxSize: int, kv: KeyValue): (LogState, Result<()>)
  {
    match level
    case Skip => (st.(readQueue := st.readQueue + [kv]), Ok(()))
    case Async =>
      var (w, r) := AppendStep(st.writer, maxSize, Some(kv));
      (st.(readQueue := st.readQueue + [kv], writer := w), r)
    case _ =>
      var (w, r) := AppendStep(st.writer, maxSize, Some(kv));
      if r.Err? then (st.(writer := w), r)
      else (st.(writer := SyncStep(w)), Ok(()))
  }

  /** The consumer's step for a `LogSync` entry. */
  function SyncRequestStep(st: LogState): LogState
  {
    st.(writer := SyncStep(st.writer))
  }

  /** Entries consumed in order, stopping at the first failure. */
  function ConsumeAll(st: LogState, level: WalLevel, maxSize: int, reqs: seq<Request>): Result<LogState>
  {
    if reqs == [] then Ok(st)
    else
      var prev :- ConsumeAll(st, level, maxSize, reqs[..|reqs| - 1]);
      var (next, r) := WalStep(prev, level, maxSize, reqs[|reqs| - 1]);
      if r.Err? then Err(r.error) else Ok(next)
  }

  /** The record of request `req` numbered `seqId`. */
  function Numbered(req: Request, seqId: int): KeyValue
  {
    KeyValue(req.key, if req.op == Put then req.value else [], req.op, seqId)
  }

  /** The records of `reqs` numbered consecutively after `start`. */
  function NumberedAll(reqs: seq<Request>, start: int): (kvs: seq<KeyValue>)
    ensures |kvs| == |reqs|
  {
    if reqs == [] then [] else NumberedAll(reqs[..|reqs| - 1], start) + [Numbered(reqs[|reqs| - 1], start + |reqs|)]
  }

  lemma {:induction false} NumberedAt(reqs: seq<Request>, start: int, i: int)
    requires 0 <= i < |reqs|
    ensures NumberedAll(reqs, start)[i] == Numbered(reqs[i], start + i + 1)
    decreases |reqs|
  {
    if i < |reqs| - 1 {
      NumberedAt(reqs[..|reqs| - 1], start, i);
    }
  }

  /** Every numbered record fits the writer: a valid record no larger than the buffer. */
  ghost predicate Fits(reqs: seq<Request>, start: int, maxSize: int)
  {
    forall i | 0 <= i < |reqs| ::
      KeyValues.Valid(Numbered(reqs[i], start + i + 1)) && SerializedSize(Numbered(reqs[i], start + i + 1)) <= maxSize
  }

  /** What consuming the numbered records leaves at each WAL level. */
  ghost predicate Routed(st: LogState, next: LogState, level: WalLevel, kvs: seq<KeyValue>, maxSize: int)
  {
    next.sequenceId == st.sequenceId + |kvs|
    && WriterInv(next.writer, maxSize) && next.writer.open
    && match level
       case Skip => next.readQueue == st.readQueue + kvs && next.writer == st.writer
       case Async => next.readQueue == st.readQueue + kvs && Logged(next.writer) == Logged(st.writer) + Records(kvs)
       case _ =>
         next.readQueue == st.readQueue && Logged(next.writer) == Logged(st.writer) + Records(kvs)
         && (kvs != [] ==> next.writer.buffer == [])
  }

  /** An entry that fits the buffer, before the counters wrap: the append succeeds and logs its bytes. */
  lemma {:induction false} AppendOk(w: WriterState, maxSize: int, kv: KeyValue)
    requires WriterInv(w, maxSize) && w.open && KeyValues.Valid(kv) && SerializedSize(kv) <= maxSize
    requires |Logged(w)| + SerializedSize(kv) <= INT32_MAX
    ensures var (w2, r) := AppendStep(w, maxSize, Some(kv));
            r.Ok? && WriterInv(w2, maxSize) && w2.open && Logged(w2) == Logged(w) + Serialize(kv)
  {
    AppendFits(w, maxSize, kv);
    AppendKeeps(w, maxSize, Some(kv));
  }

  /** The same followed by a sync: the entry's bytes are logged and nothing stays buffered. */
  lemma {:induction false} AppendSyncOk(w: WriterState, maxSize: int, kv: KeyValue)
    requires WriterInv(w, maxSize) && w.open && KeyValues.Valid(kv) && SerializedSize(kv) <= maxSize
    requires |Logged(w)| + SerializedSize(kv) <= INT32_MAX
    ensures AppendStep(w, maxSize, Some(kv)).1.Ok?
    ensures var w3 := SyncStep(AppendStep(w, maxSize, Some(kv)).0);
            WriterInv(w3, maxSize) && w3.open && Logged(w3) == Logged(w) + Serialize(kv) && w3.buffer == []
  {
    AppendOk(w, maxSize, kv);
    SyncKeeps(AppendStep(w, maxSize, Some(kv)).0, maxSize);
  }

  /** One more request consumed, when all before it and it itself succeed. */
  lemma {:induction false} ConsumeAllSnoc(st: LogState, level: WalLevel, maxSize: int, reqs: seq<Request>, prev: LogState)
    requires reqs != [] && ConsumeAll(st, level, maxSize, reqs[..|reqs| - 1]) == Ok(prev)
    requires WalStep(prev, level, maxSize, reqs[|reqs| - 1]).1.Ok?
    ensures ConsumeAll(st, level, maxSize, reqs) == Ok(WalStep(prev, level, maxSize, reqs[|reqs| - 1]).0)
  {
  }

  /** The requests before the last still fit. */
  lemma {:induction false} FitsInit(reqs: seq<Request>, start: int, maxSize: int)
    requires reqs != [] && Fits(reqs, start, maxSize)
    ensures Fits(reqs[..|reqs| - 1], start, maxSize)
    ensures var kv := Numbered(reqs[|reqs| - 1], start + |reqs|);
            KeyValues.Valid(kv) && SerializedSize(kv) <= maxSize
  {
    var init := reqs[..|reqs| - 1];
    forall i | 0 <= i < |init|
      ensures KeyValues.Valid(Numbered(init[i], start + i + 1)) && SerializedSize(Numbered(init[i], start + i + 1)) <= maxSize
    {
      assert init[i] == reqs[i];
    }
    assert KeyValues.Valid(Numbered(reqs[|reqs| - 1], start + (|reqs| - 1) + 1));
  }

  /**
   * Consuming entries numbers them consecutively from the last sequence id
   * and routes them by level: SKIP and ASYNC hand the records to the read
   * queue in order, ASYNC, SYNC and FSYNC log their bytes in order, and
   * SYNC and FSYNC leave nothing buffered.
   */
  lemma {:induction false} ConsumeAllRoutes(st: LogState, level: WalLevel, maxSize: int, reqs: seq<Request>)
    requires WriterInv(st.writer, maxSize) && st.writer.open && 0 <= st.sequenceId
    requires st.sequenceId + |reqs| <= INT64_MAX && Fits(reqs, st.sequenceId, maxSize)
    requires |Logged(st.writer)| + TotalSize(NumberedAll(reqs, st.sequenceId)) <= INT32_MAX
    ensures ConsumeAll(st, level, maxSize, reqs).Ok?
    ensures Routed(st, ConsumeAll(st, level, maxSize, reqs).value, level, NumberedAll(reqs, st.sequenceId), maxSize)
    decreases |reqs|
  {
    if reqs != [] {
      ConsumeAllRoutes(st, level, maxSize, reqs[..|reqs| - 1]);
      ConsumeOneMore(st, level, maxSize, reqs);
    }
  }

  /** The inductive step of the above: the last request on top of those before it. */
  lemma {:induction false} ConsumeOneMore(st: LogState, level: WalLevel, maxSize: int, reqs: seq<Request>)
    requires reqs != [] && 0 <= st.sequenceId
    requires st.sequenceId + |reqs| <= INT64_MAX && Fits(reqs, st.sequenceId, maxSize)
    requires |Logged(st.writer)| + TotalSize(NumberedAll(reqs, st.sequenceId)) <= INT32_MAX
    requires ConsumeAll(st, level, maxSize, reqs[..|reqs| - 1]).Ok?
    requires Routed(st, ConsumeAll(st, level, maxSize, reqs[..|reqs| - 1]).value, level,
                    NumberedAll(reqs[..|reqs| - 1], st.sequenceId), maxSize)
    ensures ConsumeAll(st, level, maxSize, reqs).Ok?
    ensures Routed(st, ConsumeAll(st, level, maxSize, reqs).value, level, NumberedAll(reqs, st.sequenceId), maxSize)
  {
    var n := |reqs|;
    var init, req := reqs[..n - 1], reqs[n - 1];
    var before := NumberedAll(init, st.sequenceId);
    var kv := Numbered(req, st.sequenceId + n);
    assert NumberedAll(reqs, st.sequenceId) == before + [kv];
    TotalSizeSnoc(before, kv);
    RecordsLength(before);
    FitsInit(reqs, st.sequenceId, maxSize);
    var prev := ConsumeAll(st, level, maxSize, init).value;
    StepRoutes(st, prev, level, maxSize, req, before, kv);
    ConsumeAllSnoc(st, level, maxSize, reqs, prev);
  }

  /** Below the long range's end, a step numbers the request with the next id and routes its record. */
  lemma {:induction false} NumberedRecord(prev: LogState, level: WalLevel, maxSize: int, req: Request)
    requires 0 <= prev.sequenceId && prev.sequenceId + 1 <= INT64_MAX
    ensures WalStep(prev, level, maxSize, req)
            == Route(prev.(sequenceId := prev.sequenceId + 1), level, maxSize, Numbered(req, prev.sequenceId + 1))
  {
    Wrap64Identity(prev.sequenceId + 1);
    assert EntryRecord(req.op, req.key, req.value, prev.sequenceId + 1) == Ok(Numbered(req, prev.sequenceId + 1));
  }

  /** One more entry on top of entries already routed. */
  lemma {:induction false} StepRoutes(st: LogState, prev: LogState, level: WalLevel, maxSize: int, req: Request,
                                      kvs: seq<KeyValue>, kv: KeyValue)
    requires Routed(st, prev, level, kvs, maxSize) && 0 <= st.sequenceId
    requires prev.sequenceId + 1 <= INT64_MAX && kv == Numbered(req, prev.sequenceId + 1)
    requires KeyValues.Valid(kv) && SerializedSize(kv) <= maxSize
    requires |Logged(st.writer)| + |Records(kvs)| + SerializedSize(kv) <= INT32_MAX
    ensures WalStep(prev, level, maxSize, req).1.Ok?
    ensures Routed(st, WalStep(prev, level, maxSize, req).0, level, kvs + [kv], maxSize)
  {
    NumberedRecord(prev, level, maxSize, req);
    RecordsSnoc(kvs, kv);
    RouteKeeps(st, prev.(sequenceId := prev.sequenceId + 1), level, maxSize, kvs, kv);
  }

  /** Routing one more record keeps what routing the ones before it did. */
  lemma {:induction false} RouteKeeps(st: LogState, prev: LogState, level: WalLevel, maxSize: int, kvs: seq<KeyValue>, kv: KeyValue)
    requires Routed(st, prev.(sequenceId := prev.sequenceId - 1), level, kvs, maxSize)
    requires KeyValues.Valid(kv) && SerializedSize(kv) <= maxSize
    requires |Logged(st.writer)| + |Records(kvs)| + SerializedSize(kv) <= INT32_MAX
    requires Records(kvs + [kv]) == Records(kvs) + Serialize(kv)
    ensures Route(prev, level, maxSize, kv).1.Ok?
    ensures Routed(st, Route(prev, level, maxSize, kv).0, level, kvs + [kv], maxSize)
  {
    match level {
      case Skip =>
      case Async =>
        AppendOk(prev.writer, maxSize, kv);
      case _ =>
        RouteKeepsSynced(st, prev, level, maxSize, kvs, kv);
    }
  }

  /** The same at SYNC and FSYNC, where the append is followed by a sync. */
  lemma {:induction false} RouteKeepsSynced(st: LogState, prev: LogState, level: WalLevel, maxSize: int, kvs: seq<KeyValue>, kv: KeyValue)
    requires level == Sync || level == Fsync
    requires Routed(st, prev.(sequenceId := prev.sequenceId - 1), level, kvs, maxSize)
    requires KeyValues.Valid(kv) && SerializedSize(kv) <= maxSize
    requires |Logged(st.writer)| + |Records(kvs)| + SerializedSize(kv) <= INT32_MAX
    requires Records(kvs + [kv]) == Records(kvs) + Serialize(kv)
    ensures Route(prev, level, maxSize, kv).1.Ok?
    ensures Routed(st, Route(prev, level, maxSize, kv).0, level, kvs + [kv], maxSize)
  {
    AppendSyncOk(prev.writer, maxSize, kv);
    var next := prev.(writer := SyncStep(AppendStep(prev.writer, maxSize, Some(kv)).0));
    assert Route(prev, level, maxSize, kv) == (next, Ok(()));
    assert Logged(next.writer) == Logged(st.writer) + Records(kvs + [kv]);
  }

  /**
   * The end-to-end round trip at SYNC and FSYNC: after a fresh writer
   * consumed entries, the file holds their records, numbered 1, 2, 3, ...,
   * `logCurrPos` is its length, and reading from 0 to `logCurrPos` returns
   * them in order.
   */
  lemma {:induction false} SyncedLogReadsBack(level: WalLevel, maxSize: int, reqs: seq<Request>)
    requires level == Sync || level == Fsync
    requires 0 <= maxSize && |reqs| <= INT64_MAX && Fits(reqs, 0, maxSize)
    requires TotalSize(NumberedAll(reqs, 0)) <= INT32_MAX
    ensures ConsumeAll(LogState(0, [], NewWriter()), level, maxSize, reqs).Ok?
    ensures var w := ConsumeAll(LogState(0, [], NewWriter()), level, maxSize, reqs).value.writer;
            w.file == Records(NumberedAll(reqs, 0)) && w.currPos == |w.file|
            && LogRead(w.file, 0, w.currPos) == Ok(NumberedAll(reqs, 0))
  {
    var st := LogState(0, [], NewWriter());
    var kvs := NumberedAll(reqs, 0);
    NewWriterValid(maxSize);
    ConsumeAllRoutes(st, level, maxSize, reqs);
    var w := ConsumeAll(st, level, maxSize, reqs).value.writer;
    assert Logged(w) == Records(kvs);
    assert w.file == Records(kvs);
    RecordsLength(kvs);
    Wrap32Identity(|w.file|);
    assert AllValid(kvs) by {
      forall i | 0 <= i < |kvs|
        ensures KeyValues.Valid(kvs[i])
      {
        NumberedAt(reqs, 0, i);
      }
    }
    ReadRoundTrip([], kvs, []);
    assert Records([]) + Records(kvs) + [] == w.file;
  }

  // ---------------------------------------------------------------------------
  // BaseLog
  // ---------------------------------------------------------------------------

  /** The consumer's side of `BaseLog`. */
  class BaseLog {
    const walLevel: WalLevel
    const writer: LogWriter
    var sequenceId: int
    var readQueue: seq<KeyValue>
    var seqIdToEntry: map<int, WriteLogWal>

    function State(): LogState
      reads this, writer
    {
      LogState(sequenceId, readQueue, writer.State())
    }

    /** `new BaseLog(conf)`: sequence id 0, empty queues, a fresh writer. */
    constructor(walLevel: WalLevel, bufferSize: int)
      requires bufferSize >= 0
      ensures this.walLevel == walLevel && fresh(writer) && writer.maxSize == bufferSize
      ensures State() == LogState(0, [], NewWriter()) && seqIdToEntry == map[]
    {
      this.walLevel := walLevel;
      writer := new LogWriter(bufferSize);
      sequenceId := 0;
      readQueue := [];
      seqIdToEntry := map[];
    }

    /**
     * The consumer's step for a `WriteLogWal`: number it, remember it by its
     * sequence id and route it.
     */
    method ConsumeWal(entry: WriteLogWal) returns (r: Result<()>)
      modifies this, entry, writer
      ensures (State(), r) == WalStep(old(State()), walLevel, writer.maxSize, Request(entry.op, entry.key, entry.value))
      ensures entry.seqId == sequenceId && entry.waiting == old(entry.waiting)
      ensures EntryRecord(entry.op, entry.key, entry.value, sequenceId).Ok? ==>
                entry.kv == Some(EntryRecord(entry.op, entry.key, entry.value, sequenceId).value)
                && seqIdToEntry == old(seqIdToEntry)[sequenceId := entry]
    ensures EntryRecord(entry.op, entry.key, entry.value, sequenceId).Err? ==>
                entry.kv == old(entry.kv) && seqIdToEntry == old(seqIdToEntry)
    {
      sequenceId := Wrap64(sequenceId + 1);
      var seqId := sequenceId;
      r := entry.SetSeq(seqId);
      if r.Err? {
        return;
      }
      r := Ok(());
      seqIdToEntry := seqIdToEntry[seqId := entry];
      var readWal := entry.ToReadLogWal();
      match walLevel {
        case Skip =>
          readQueue := readQueue + [readWal.value];
        case Async =>
          readQueue := readQueue + [readWal.value];
          r := writer.Append(entry);
        case _ =>
          r := writer.Append(entry);
          if r.Ok? {
            writer.Sync();
          }
      }
    }

    /** The consumer's step for a `LogSync` entry. */
    method ConsumeSync()
      modifies writer
      ensures State() == SyncRequestStep(old(State()))
    {
      writer.Sync();
    }

    /**
     * `notifyLogEntry(seqId)`: releases the entry with that sequence id and
     * forgets it; an unknown id is a null dereference after the (no-op)
     * removal.  No other entry is touched.
     */
    method NotifyLogEntry(seqId: int) returns (r: Result<()>)
      modifies this, if seqId in seqIdToEntry then {seqIdToEntry[seqId]} else {}
      ensures seqId !in old(seqIdToEntry) ==> r == Err(NullPointer) && seqIdToEntry == old(seqIdToEntry)
      ensures seqId in old(seqIdToEntry) ==>
                var e := old(seqIdToEntry)[seqId];
                r.Ok? && !e.waiting && e.seqId == old(e.seqId) && e.kv == old(e.kv)
                && seqIdToEntry == old(seqIdToEntry) - {seqId}
      ensures sequenceId == old(sequenceId) && readQueue == old(readQueue)
    {
      if seqId !in seqIdToEntry {
        return Err(NullPointer);
      }
      var entry := seqIdToEntry[seqId];
      seqIdToEntry := seqIdToEntry - {seqId};
      entry.LogNotify();
      r := Ok(());
    }
  }
}
