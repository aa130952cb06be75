/**
 * `WriteLogWal`: a put or delete waiting in the write-ahead log's queue.
 * The consumer numbers it with `setSeq`, which builds the record that is
 * logged and handed to the read queue; the writer waiting on it is released
 * by `logNotify`.
 */
module WriteLogWals {
  import opened Wrappers
  import opened ByteUtils
  import opened KeyValues

  /**
   * The record `setSeq(seqId)` builds for an entry: a Put keeps the value, a
   * Delete carries the empty value.  A sequence id below -1 fails the
   * record's constructor assertion.
   */
  function EntryRecord(op: Op, key: seq<Byte>, value: seq<Byte>, seqId: int): (r: Result<KeyValue>)
    ensures r.Ok? <==> seqId >= -1
    ensures r.Err? ==> r.error == AssertionFailed
    ensures r.Ok? ==> r.value.op == op && r.value.key == key && r.value.sequenceId == seqId
                      && r.value.value == (if op == Put then value else [])
  {
    if op == Put then CreatePut(key, value, seqId)
    else assert op == Delete; CreateDelete(key, seqId)
  }

  /** A logged entry reads back as the record `setSeq` built for it. */
  lemma {:induction false} EntryReadsBack(op: Op, key: seq<Byte>, value: seq<Byte>, seqId: int)
    requires EntryRecord(op, key, value, seqId).Ok? && Valid(EntryRecord(op, key, value, seqId).value)
    ensures var kv := EntryRecord(op, key, value, seqId).value;
            |Serialize(kv)| == SerializedSize(kv) && ParseAt(Serialize(kv), 0) == Ok(kv)
  {
    var kv := EntryRecord(op, key, value, seqId).value;
    SerializeLength(kv);
    ParseSerialize(kv, [], []);
    assert [] + Serialize(kv) + [] == Serialize(kv);
  }

  class WriteLogWal {
    const op: Op
    const key: seq<Byte>
    const value: seq<Byte>
    var seqId: int
    /** The record built by `setSeq`; null until then. */
    var kv: Option<KeyValue>
    var waiting: bool

    constructor(key: seq<Byte>, value: seq<Byte>, op: Op)
      ensures this.key == key && this.value == value && this.op == op
      ensures seqId == 0 && kv == None && waiting
    {
      this.key := key;
      this.value := value;
      this.op := op;
      seqId := 0;
      kv := None;
      waiting := true;
    }

    /**
     * `setSeq(seqId)`: records the sequence id and builds the record of the
     * entry's op.  When the record's constructor fails, the id is recorded
     * and the record stays as it was.
     */
    method SetSeq(seqId: int) returns (r: Result<()>)
      modifies this
      ensures this.seqId == seqId && waiting == old(waiting)
      ensures r.Ok? <==> EntryRecord(op, key, value, seqId).Ok?
      ensures r.Err? ==> r.error == AssertionFailed && kv == old(kv)
      ensures r.Ok? ==> kv == Some(EntryRecord(op, key, value, seqId).value)
    {
      this.seqId := seqId;
      var built: Result<KeyValue>;
      if op == Put {
        built := CreatePut(key, value, seqId);
      } else {
        built := CreateDelete(key, seqId);
      }
      if built.Err? {
        return Err(built.error);
      }
      kv := Some(built.value);
      r := Ok(());
    }

    /** `toReadLogWal()`: the read-side entry wraps the same record. */
    method ToReadLogWal() returns (r: Option<KeyValue>)
      ensures r == kv
    {
      r := kv;
    }

    /** `getSerializedSize()`: the record's size; no record yet is a null dereference. */
    method GetSerializedSize() returns (r: Result<int>)
      ensures kv.None? ==> r == Err(NullPointer)
      ensures kv.Some? ==> r == Ok(SerializedSize(kv.value))
    {
      if kv.None? {
        return Err(NullPointer);
      }
      r := Ok(SerializedSize(kv.value));
    }

    /** `toBytes()`: the record's bytes, as many as `getSerializedSize()` says. */
    method ToBytes() returns (r: Result<seq<Byte>>)
      ensures kv.None? ==> r == Err(NullPointer)
      ensures kv.Some? ==> r == Ok(Serialize(kv.value)) && |r.value| == SerializedSize(kv.value)
    {
      if kv.None? {
        return Err(NullPointer);
      }
      SerializeLength(kv.value);
      r := Ok(Serialize(kv.value));
    }

    /** `logNotify()`: releases the writer waiting in `logJoin()`. */
    method LogNotify()
      modifies this
      ensures !waiting && seqId == old(seqId) && kv == old(kv)
    {
      waiting := false;
    }

    /** `logJoin()` returns once this holds. */
    predicate Released()
      reads this
    {
      !waiting
    }
  }

  /** `createPutWal(key, value)`. */
  method CreatePutWal(key: seq<Byte>, value: seq<Byte>) returns (w: WriteLogWal)
    ensures fresh(w) && w.op == Put && w.key == key && w.value == value
    ensures w.waiting && w.kv == None
  {
    w := new WriteLogWal(key, value, Put);
  }

  /** `createDeleteWal(key)`: the value is the empty array. */
  method CreateDeleteWal(key: seq<Byte>) returns (w: WriteLogWal)
    ensures fresh(w) && w.op == Delete && w.key == key && w.value == []
    ensures w.waiting && w.kv == None
  {
    w := new WriteLogWal(key, [], Delete);
  }
}
