/**
 * The record type (KeyValue.java): a key, a value, an operation and a
 * sequence id, with the engine-wide order on records and the wire format
 * `rawKeyLen(4) | valLen(4) | key | op(1) | sequenceId(8) | value`.
 */
module KeyValues {
  import opened Wrappers
  import opened ByteUtils

  const RAW_KEY_LEN_SIZE: int := 4
  const VAL_LEN_SIZE: int := 4
  const OP_SIZE: int := 1
  const SEQ_ID_SIZE: int := 8

  datatype Op = Put | Delete

  /** `Op.getCode()`. */
  function Code(op: Op): Byte
  {
    match op
    case Put => 0
    case Delete => 1
  }

  /** `Op.codeToOp`: only the codes 0 and 1 name an operation. */
  function CodeToOp(code: Byte): (r: Result<Op>)
  {
    if code == 0 then Ok(Put)
    else if code == 1 then Ok(Delete)
    else Err(UnknownCode)
  }

  lemma {:induction false} CodeToOpInverse(op: Op, code: Byte)
    ensures CodeToOp(Code(op)) == Ok(op)
    ensures CodeToOp(code).Ok? ==> Code(CodeToOp(code).value) == code
  {
  }

  /** A record; `key` and `value` are the contents of the Java arrays. */
  datatype KeyValue = KeyValue(key: seq<Byte>, value: seq<Byte>, op: Op, sequenceId: int)

  /** The constructor's `assert sequenceId >= -1` (assertions enabled). */
  function NewKeyValue(key: seq<Byte>, value: seq<Byte>, op: Op, sequenceId: int): (r: Result<KeyValue>)
    ensures r.Ok? <==> sequenceId >= -1
    ensures r.Ok? ==> r.value == KeyValue(key, value, op, sequenceId)
  {
    if sequenceId >= -1 then Ok(KeyValue(key, value, op, sequenceId)) else Err(AssertionFailed)
  }

  /** `createPut(key, value, sequenceId)`. */
  function CreatePut(key: seq<Byte>, value: seq<Byte>, sequenceId: int): Result<KeyValue>
  {
    NewKeyValue(key, value, Put, sequenceId)
  }

  /** `createDelete(key, sequenceId)`: the value is the shared empty array. */
  function CreateDelete(key: seq<Byte>, sequenceId: int): Result<KeyValue>
  {
    NewKeyValue(key, [], Delete, sequenceId)
  }

  lemma {:induction false} CreateShapes(key: seq<Byte>, value: seq<Byte>, sequenceId: int)
    requires sequenceId >= -1
    ensures CreatePut(key, value, sequenceId) == Ok(KeyValue(key, value, Put, sequenceId))
    ensures CreateDelete(key, sequenceId) == Ok(KeyValue(key, [], Delete, sequenceId))
    ensures CreatePut(key, value, -2).Err? && CreateDelete(key, -2).Err?
  {
  }

  /** A record the Java object can hold and serialise: a long sequence id of at least -1, int-sized lengths. */
  predicate Valid(kv: KeyValue)
  {
    -1 <= kv.sequenceId <= INT64_MAX && SerializedSize(kv) <= INT32_MAX
  }

  /** `getRawKeyLen()`. */
  function RawKeyLen(kv: KeyValue): int
  {
    |kv.key| + OP_SIZE + SEQ_ID_SIZE
  }

  /** `getSerializedSize()`. */
  function SerializedSize(kv: KeyValue): int
  {
    RAW_KEY_LEN_SIZE + VAL_LEN_SIZE + RawKeyLen(kv) + |kv.value|
  }

  /**
   * `getMemorySize()`: the method is not part of the source shown; the block
   * cache's test documents it as key length + value length + 1 + 8.
   */
  function MemorySize(kv: KeyValue): nat
  {
    |kv.key| + |kv.value| + 1 + 8
  }

  /** The bytes `toBytes()` produces. */
  function Serialize(kv: KeyValue): seq<Byte>
  {
    EncodeInt32(RawKeyLen(kv)) + EncodeInt32(|kv.value|) + kv.key + [Code(kv.op)]
      + EncodeInt64(kv.sequenceId) + kv.value
  }

  lemma {:induction false} SerializeLength(kv: KeyValue)
    ensures |Serialize(kv)| == SerializedSize(kv)
    ensures SerializedSize(kv) == 4 + 4 + (|kv.key| + 1 + 8) + |kv.value|
  {
  }

  /** `toBytes()`: fills a fresh array field by field with a moving `pos`. */
  method ToBytes(kv: KeyValue) returns (bytes: array<Byte>)
    requires Valid(kv)
    ensures fresh(bytes) && bytes[..] == Serialize(kv)
  {
    var rawKeyLen := RawKeyLen(kv);
    var pos := 0;
    bytes := new Byte[SerializedSize(kv)];
    ghost var written: seq<Byte> := [];

    var rawKeyLenBytes := ToBytesInt(rawKeyLen);
    CopyAt(rawKeyLenBytes[..], bytes, pos, written);
    pos := pos + RAW_KEY_LEN_SIZE;
    written := EncodeInt32(rawKeyLen);

    var valLen := ToBytesInt(|kv.value|);
    CopyAt(valLen[..], bytes, pos, written);
    pos := pos + VAL_LEN_SIZE;
    written := written + EncodeInt32(|kv.value|);

    CopyAt(kv.key, bytes, pos, written);
    pos := pos + |kv.key|;
    written := written + kv.key;

    bytes[pos] := Code(kv.op);
    AppendWritten(bytes[..], pos, written, [Code(kv.op)]);
    pos := pos + OP_SIZE;
    written := written + [Code(kv.op)];

    var seqIdBytes := ToBytesLong(kv.sequenceId);
    CopyAt(seqIdBytes[..], bytes, pos, written);
    pos := pos + seqIdBytes.Length;
    written := written + EncodeInt64(kv.sequenceId);

    CopyAt(kv.value, bytes, pos, written);
    pos := pos + |kv.value|;
    written := written + kv.value;

    assert written == Serialize(kv);
    assert pos == bytes.Length;
    assert bytes[..] == bytes[..pos];
  }

  /** Bookkeeping for a cursor that writes `src` right after the `written` prefix. */
  lemma {:induction false} AppendWritten(now: seq<Byte>, pos: int, written: seq<Byte>, src: seq<Byte>)
    requires 0 <= pos && pos + |src| <= |now|
    requires now[..pos] == written && now[pos..pos + |src|] == src
    ensures now[..pos + |src|] == written + src
  {
    assert now[..pos + |src|] == now[..pos] + now[pos..pos + |src|];
  }

  /**
   * `parseFrom(bytes, offset)` on a non-null buffer, up to the two length
   * fields.  The length check adds in 32-bit arithmetic, so an offset near
   * the top of the int range passes it and the first `slice` fails instead.
   * Once a slice has succeeded, every later position lies inside the buffer,
   * so the later additions of the source cannot overflow.
   */
  function ParseAt(bytes: seq<Byte>, offset: int): (r: Result<KeyValue>)
  {
    if Wrap32(offset + RAW_KEY_LEN_SIZE + VAL_LEN_SIZE) >= |bytes| then Err(InvalidLen)
    else
      var rawKeyLenBytes :- SliceOf(Some(bytes), offset, RAW_KEY_LEN_SIZE);
      var valLenBytes :- SliceOf(Some(bytes), offset + RAW_KEY_LEN_SIZE, VAL_LEN_SIZE);
      ParseBody(bytes, offset + RAW_KEY_LEN_SIZE + VAL_LEN_SIZE, DecodeInt32(rawKeyLenBytes), DecodeInt32(valLenBytes))
  }

  /** The key, whose length `rawKeyLen - 1 - 8` is computed in 32-bit arithmetic. */
  function ParseBody(bytes: seq<Byte>, keyPos: int, rawKeyLen: int, valLen: int): Result<KeyValue>
  {
    var keyLen := Wrap32(rawKeyLen - OP_SIZE - SEQ_ID_SIZE);
    var key :- SliceOf(Some(bytes), keyPos, keyLen);
    ParseTail(bytes, keyPos + keyLen, key, valLen)
  }

  /**
   * The op byte (read without a bounds check, so a buffer ending right after
   * the key fails with an index error), the sequence id and the value.  The
   * closing `assert pos <= bytes.length` always holds after the value slice.
   */
  function ParseTail(bytes: seq<Byte>, opPos: int, key: seq<Byte>, valLen: int): Result<KeyValue>
  {
    if opPos < 0 || opPos >= |bytes| then Err(IndexOutOfBounds)
    else
      var op :- CodeToOp(bytes[opPos]);
      var seqIdBytes :- SliceOf(Some(bytes), opPos + OP_SIZE, SEQ_ID_SIZE);
      var value :- SliceOf(Some(bytes), opPos + OP_SIZE + SEQ_ID_SIZE, valLen);
      NewKeyValue(key, value, op, DecodeInt64(seqIdBytes))
  }

  /** `parseFrom(bytes, offset)`, null buffer included. */
  function Parse(bytes: Option<seq<Byte>>, offset: int): Result<KeyValue>
  {
    match bytes
    case None => Err(NullBuffer)
    case Some(s) => ParseAt(s, offset)
  }

  lemma {:induction false} TailRoundTrip(kv: KeyValue, bytes: seq<Byte>, opPos: int)
    requires Valid(kv) && 0 <= opPos && opPos + 9 + |kv.value| <= |bytes| <= INT32_MAX
    requires bytes[opPos] == Code(kv.op)
    requires bytes[opPos + 1..opPos + 9] == EncodeInt64(kv.sequenceId)
    requires bytes[opPos + 9..opPos + 9 + |kv.value|] == kv.value
    ensures ParseTail(bytes, opPos, kv.key, |kv.value|) == Ok(kv)
  {
    CodeToOpInverse(kv.op, 0);
    SliceSucceeds(bytes, opPos + 1, 8);
    SliceSucceeds(bytes, opPos + 9, |kv.value|);
    Int64RoundTrip(kv.sequenceId);
  }

  lemma {:induction false} BodyRoundTrip(kv: KeyValue, bytes: seq<Byte>, keyPos: int)
    requires Valid(kv) && 0 <= keyPos && keyPos + RawKeyLen(kv) + |kv.value| <= |bytes| <= INT32_MAX
    requires bytes[keyPos..keyPos + |kv.key|] == kv.key
    requires bytes[keyPos + |kv.key|] == Code(kv.op)
    requires bytes[keyPos + |kv.key| + 1..keyPos + |kv.key| + 9] == EncodeInt64(kv.sequenceId)
    requires bytes[keyPos + |kv.key| + 9..keyPos + |kv.key| + 9 + |kv.value|] == kv.value
    ensures ParseBody(bytes, keyPos, RawKeyLen(kv), |kv.value|) == Ok(kv)
  {
    NarrowInRange(|kv.key|, 4);
    SliceSucceeds(bytes, keyPos, |kv.key|);
    TailRoundTrip(kv, bytes, keyPos + |kv.key|);
  }

  /** A record serialised anywhere inside a larger buffer parses back to itself. */
  lemma {:induction false} ParseSerialize(kv: KeyValue, pre: seq<Byte>, post: seq<Byte>)
    requires Valid(kv)
    requires |pre| + SerializedSize(kv) + |post| <= INT32_MAX
    ensures ParseAt(pre + Serialize(kv) + post, |pre|) == Ok(kv)
  {
    var bytes := pre + Serialize(kv) + post;
    SerializeLength(kv);
    assert bytes[|pre|..|pre| + SerializedSize(kv)] == Serialize(kv);
    ParseSerializedAt(kv, bytes, |pre|);
  }

  /** The same, for a buffer whose bytes from `o` on are the record's serialisation. */
  lemma {:induction false} ParseSerializedAt(kv: KeyValue, bytes: seq<Byte>, o: int)
    requires Valid(kv) && 0 <= o && o + SerializedSize(kv) <= |bytes| <= INT32_MAX
    requires bytes[o..o + SerializedSize(kv)] == Serialize(kv)
    ensures ParseAt(bytes, o) == Ok(kv)
  {
    HeaderAt(kv, bytes, o);
    Int32RoundTrip(RawKeyLen(kv));
    Int32RoundTrip(|kv.value|);
    BodyAt(kv, bytes, o);
  }

  /** The two length fields of a record serialised at `o`. */
  lemma {:induction false} HeaderAt(kv: KeyValue, bytes: seq<Byte>, o: int)
    requires Valid(kv) && 0 <= o && o + SerializedSize(kv) <= |bytes| <= INT32_MAX
    requires bytes[o..o + SerializedSize(kv)] == Serialize(kv)
    ensures Wrap32(o + RAW_KEY_LEN_SIZE + VAL_LEN_SIZE) < |bytes|
    ensures SliceOf(Some(bytes), o, 4) == Ok(EncodeInt32(RawKeyLen(kv)))
    ensures SliceOf(Some(bytes), o + 4, 4) == Ok(EncodeInt32(|kv.value|))
  {
    var n := SerializedSize(kv);
    SerializeFields(kv);
    NarrowInRange(o + 8, 4);
    SliceSucceeds(bytes, o, 4);
    SubSlice(bytes, o, o + n, 0, 4);
    SliceSucceeds(bytes, o + 4, 4);
    SubSlice(bytes, o, o + n, 4, 8);
  }

  /** The key, op, sequence id and value of a record serialised at `o`. */
  lemma {:induction false} BodyAt(kv: KeyValue, bytes: seq<Byte>, o: int)
    requires Valid(kv) && 0 <= o && o + SerializedSize(kv) <= |bytes| <= INT32_MAX
    requires bytes[o..o + SerializedSize(kv)] == Serialize(kv)
    ensures ParseBody(bytes, o + 8, RawKeyLen(kv), |kv.value|) == Ok(kv)
  {
    var k := |kv.key|;
    var n := SerializedSize(kv);
    SerializeFields(kv);
    SubSlice(bytes, o, o + n, 8, 8 + k);
    SubSlice(bytes, o, o + n, 9 + k, 17 + k);
    SubSlice(bytes, o, o + n, 17 + k, n);
    assert bytes[o + 8 + k] == bytes[o..o + n][8 + k];
    BodyRoundTrip(kv, bytes, o + 8);
  }

  /** The fields of a serialised record, by position. */
  lemma {:induction false} SerializeFields(kv: KeyValue)
    ensures var s, k := Serialize(kv), |kv.key|;
      |s| == SerializedSize(kv) &&
      s[0..4] == EncodeInt32(RawKeyLen(kv)) && s[4..8] == EncodeInt32(|kv.value|) &&
      s[8..8 + k] == kv.key && s[8 + k] == Code(kv.op) &&
      s[9 + k..17 + k] == EncodeInt64(kv.sequenceId) && s[17 + k..|s|] == kv.value
  {
    var a, b, c := EncodeInt32(RawKeyLen(kv)), EncodeInt32(|kv.value|), EncodeInt64(kv.sequenceId);
    var k := |kv.key|;
    var s := Serialize(kv);
    assert |a| == 4 && |b| == 4 && |c| == 8;
    var h := a + b;
    var t := [Code(kv.op)] + c + kv.value;
    assert s == h + kv.key + t;
    assert s[0..4] == a && s[4..8] == b;
    assert s[8..8 + k] == kv.key;
    assert s[8 + k..] == t;
    assert t[1..9] == c && t[9..] == kv.value;
  }

  lemma {:induction false} ParseSerializeAtZero(kv: KeyValue)
    requires Valid(kv)
    ensures ParseAt(Serialize(kv), 0) == Ok(kv)
  {
    ParseSerialize(kv, [], []);
    assert [] + Serialize(kv) + [] == Serialize(kv);
  }

  lemma {:induction false} TailParsed(bytes: seq<Byte>, opPos: int, key: seq<Byte>, valLen: int)
    requires |bytes| <= INT32_MAX
    requires ParseTail(bytes, opPos, key, valLen).Ok?
    ensures var kv := ParseTail(bytes, opPos, key, valLen).value;
      kv.key == key && |kv.value| == valLen && -1 <= kv.sequenceId <= INT64_MAX &&
      0 <= opPos && opPos + 9 + valLen <= |bytes| &&
      bytes[opPos..opPos + 9 + valLen] == [Code(kv.op)] + EncodeInt64(kv.sequenceId) + kv.value
  {
    var kv := ParseTail(bytes, opPos, key, valLen).value;
    var seqIdBytes := bytes[opPos + 1..opPos + 9];
    Int64Codec(seqIdBytes);
    assert seqIdBytes[..8] == seqIdBytes;
    CodeToOpInverse(kv.op, bytes[opPos]);
    var end := opPos + 9 + valLen;
    SliceJoin(bytes, opPos, opPos + 1, end);
    SliceJoin(bytes, opPos + 1, opPos + 9, end);
    SingleSlice(bytes, opPos);
    AppendAssoc([bytes[opPos]], seqIdBytes, bytes[opPos + 9..end]);
  }

  /** The key length wraps only for a raw length below `-2^31 + 9`, and then it is at least `2^31 - 9`. */
  lemma {:induction false} KeyLenWrap(rawKeyLen: int)
    requires IsInt32(rawKeyLen)
    ensures rawKeyLen - 9 >= INT32_MIN ==> Wrap32(rawKeyLen - 9) == rawKeyLen - 9
    ensures rawKeyLen - 9 < INT32_MIN ==> Wrap32(rawKeyLen - 9) >= INT32_MAX - 8
  {
    assert Pow256(4) == 0x1_0000_0000 by {
      assert Pow256(1) == 256 && Pow256(2) == 65536 && Pow256(3) == 16777216;
    }
    if rawKeyLen - 9 >= INT32_MIN {
      NarrowInRange(rawKeyLen - 9, 4);
    } else {
      DivModUnique(rawKeyLen - 9, 0x1_0000_0000, -1, rawKeyLen - 9 + 0x1_0000_0000);
    }
  }

  lemma {:induction false} BodyParsed(bytes: seq<Byte>, keyPos: int, rawKeyLen: int, valLen: int)
    requires |bytes| <= INT32_MAX && keyPos >= 8 && IsInt32(rawKeyLen)
    requires ParseBody(bytes, keyPos, rawKeyLen, valLen).Ok?
    ensures var kv := ParseBody(bytes, keyPos, rawKeyLen, valLen).value;
      RawKeyLen(kv) == rawKeyLen && |kv.value| == valLen && -1 <= kv.sequenceId <= INT64_MAX &&
      keyPos + rawKeyLen + valLen <= |bytes| &&
      bytes[keyPos..keyPos + rawKeyLen + valLen] == kv.key + [Code(kv.op)] + EncodeInt64(kv.sequenceId) + kv.value
  {
    var keyLen := Wrap32(rawKeyLen - OP_SIZE - SEQ_ID_SIZE);
    var key := bytes[keyPos..keyPos + keyLen];
    KeyLenWrap(rawKeyLen);
    TailParsed(bytes, keyPos + keyLen, key, valLen);
    assert keyLen == rawKeyLen - 9;
    var n := rawKeyLen + valLen;
    assert bytes[keyPos..keyPos + n] == key + bytes[keyPos + keyLen..keyPos + keyLen + 9 + valLen];
  }

  /** `ParsedIsSerialized` for a record already known by name. */
  lemma {:induction false} ParsedRecordIsSerialized(bytes: seq<Byte>, offset: int, kv: KeyValue)
    requires |bytes| <= INT32_MAX
    requires ParseAt(bytes, offset) == Ok(kv)
    ensures Valid(kv) && 0 <= offset && offset + SerializedSize(kv) <= |bytes|
    ensures bytes[offset..offset + SerializedSize(kv)] == Serialize(kv)
  {
    ParsedIsSerialized(bytes, offset);
  }

  /**
   * Conversely, whatever `parseFrom` accepts is a valid record whose
   * serialisation is exactly the bytes it consumed.
   */
  lemma {:induction false} ParsedIsSerialized(bytes: seq<Byte>, offset: int)
    requires |bytes| <= INT32_MAX
    requires ParseAt(bytes, offset).Ok?
    ensures var kv := ParseAt(bytes, offset).value;
      Valid(kv) && 0 <= offset && offset + SerializedSize(kv) <= |bytes| &&
      bytes[offset..offset + SerializedSize(kv)] == Serialize(kv)
  {
    var kv := ParseAt(bytes, offset).value;
    HeaderParsed(bytes, offset);
    var rawKeyLen, valLen := DecodeInt32(bytes[offset..offset + 4]), DecodeInt32(bytes[offset + 4..offset + 8]);
    BodyParsed(bytes, offset + 8, rawKeyLen, valLen);
    var n := SerializedSize(kv);
    SliceSplit(bytes, offset, offset + 4, offset + 8, offset + n);
    SerializeSplit(kv);
  }

  /**
   * The ways `parseFrom` rejects its input: a null buffer, a header that
   * does not leave room past the two length fields, a key or an op byte
   * beyond the buffer, an op code other than 0 and 1, and a sequence id or
   * value that runs past the buffer.
   */
  lemma {:induction false} ParseRejects(bytes: seq<Byte>, offset: int)
    requires |bytes| <= INT32_MAX && IsInt32(offset)
    ensures Parse(None, offset) == Err(NullBuffer)
    ensures offset < 0 ==> ParseAt(bytes, offset).Err?
    ensures 0 <= offset && offset + 8 >= |bytes| && offset + 8 <= INT32_MAX ==> ParseAt(bytes, offset) == Err(InvalidLen)
    ensures 0 <= offset && offset + 8 < |bytes| ==>
      var keyLen := Wrap32(DecodeInt32(bytes[offset..offset + 4]) - 9);
      var valLen := DecodeInt32(bytes[offset + 4..offset + 8]);
      var opPos := offset + 8 + keyLen;
      (keyLen < 0 || opPos >= |bytes| ==> ParseAt(bytes, offset).Err?)
      && (0 <= keyLen && opPos < |bytes| && bytes[opPos] > 1 ==> ParseAt(bytes, offset) == Err(UnknownCode))
      && (0 <= keyLen && (valLen < 0 || opPos + 9 + valLen > |bytes|) ==> ParseAt(bytes, offset).Err?)
  {
    Wrap32Identity(offset + RAW_KEY_LEN_SIZE + VAL_LEN_SIZE);
    if 0 <= offset && offset + 8 < |bytes| {
      var rawKeyLen, valLen := DecodeInt32(bytes[offset..offset + 4]), DecodeInt32(bytes[offset + 4..offset + 8]);
      HeaderRead(bytes, offset, rawKeyLen, valLen);
      BodyRejects(bytes, offset + 8, rawKeyLen, valLen);
    }
  }

  /** Past the length check, `parseFrom` goes on with the two length fields it read. */
  lemma {:induction false} HeaderRead(bytes: seq<Byte>, offset: int, rawKeyLen: int, valLen: int)
    requires |bytes| <= INT32_MAX && 0 <= offset && offset + 8 < |bytes|
    requires rawKeyLen == DecodeInt32(bytes[offset..offset + 4]) && valLen == DecodeInt32(bytes[offset + 4..offset + 8])
    ensures ParseAt(bytes, offset) == ParseBody(bytes, offset + 8, rawKeyLen, valLen)
  {
    Wrap32Identity(offset + RAW_KEY_LEN_SIZE + VAL_LEN_SIZE);
    Wrap32Identity(offset + 4);
    Wrap32Identity(offset + 8);
    var s1 := SliceOf(Some(bytes), offset, RAW_KEY_LEN_SIZE);
    var s2 := SliceOf(Some(bytes), offset + RAW_KEY_LEN_SIZE, VAL_LEN_SIZE);
    assert s1 == Ok(bytes[offset..offset + 4]) && s2 == Ok(bytes[offset + 4..offset + 8]);
  }

  /** The key, op and value checks of the body, each failing the parse. */
  lemma {:induction false} BodyRejects(bytes: seq<Byte>, keyPos: int, rawKeyLen: int, valLen: int)
    requires |bytes| <= INT32_MAX && 0 <= keyPos <= |bytes| && IsInt32(rawKeyLen) && IsInt32(valLen)
    ensures var keyLen := Wrap32(rawKeyLen - 9);
      var opPos := keyPos + keyLen;
      (keyLen < 0 || opPos >= |bytes| ==> ParseBody(bytes, keyPos, rawKeyLen, valLen).Err?)
      && (0 <= keyLen && opPos < |bytes| && bytes[opPos] > 1 ==> ParseBody(bytes, keyPos, rawKeyLen, valLen) == Err(UnknownCode))
      && (0 <= keyLen && (valLen < 0 || opPos + 9 + valLen > |bytes|) ==> ParseBody(bytes, keyPos, rawKeyLen, valLen).Err?)
  {
    var keyLen := Wrap32(rawKeyLen - 9);
    Wrap32Identity(rawKeyLen - 9);
    Wrap32Identity(keyPos + keyLen);
  }

  /** The two length fields `parseFrom` accepted, and the body parse they lead to. */
  lemma {:induction false} HeaderParsed(bytes: seq<Byte>, offset: int)
    requires |bytes| <= INT32_MAX
    requires ParseAt(bytes, offset).Ok?
    ensures 0 <= offset && offset + 8 <= |bytes|
    ensures var rawKeyLen, valLen := DecodeInt32(bytes[offset..offset + 4]), DecodeInt32(bytes[offset + 4..offset + 8]);
      IsInt32(rawKeyLen) && IsInt32(valLen)
      && EncodeInt32(rawKeyLen) == bytes[offset..offset + 4] && EncodeInt32(valLen) == bytes[offset + 4..offset + 8]
      && ParseAt(bytes, offset) == ParseBody(bytes, offset + 8, rawKeyLen, valLen)
  {
    var s1 := SliceOf(Some(bytes), offset, RAW_KEY_LEN_SIZE);
    var s2 := SliceOf(Some(bytes), offset + RAW_KEY_LEN_SIZE, VAL_LEN_SIZE);
    assert s1.Ok? && s2.Ok?;
    Int32Codec(s1.value);
    Int32Codec(s2.value);
    assert s1.value[..4] == s1.value && s2.value[..4] == s2.value;
  }

  lemma {:induction false} SliceSplit(s: seq<Byte>, a: int, b: int, c: int, d: int)
    requires 0 <= a <= b <= c <= d <= |s|
    ensures s[a..d] == s[a..b] + s[b..c] + s[c..d]
  {
  }

  lemma {:induction false} SerializeSplit(kv: KeyValue)
    ensures Serialize(kv) == EncodeInt32(RawKeyLen(kv)) + EncodeInt32(|kv.value|)
      + (kv.key + [Code(kv.op)] + EncodeInt64(kv.sequenceId) + kv.value)
  {
  }

  /** `parseFrom` on an array reference, following the Java statement by statement. */
  method ParseFrom(bytes: array?<Byte>, offset: int) returns (r: Result<KeyValue>)
    requires IsInt32(offset)
    requires bytes != null ==> bytes.Length <= INT32_MAX
    ensures r == Parse(Contents(bytes), offset)
  {
    if bytes == null {
      return Err(NullBuffer);
    } else if Wrap32(offset + RAW_KEY_LEN_SIZE + VAL_LEN_SIZE) >= bytes.Length {
      return Err(InvalidLen);
    }
    ghost var b := bytes[..];
    var pos := offset;
    var rawKeyLen :- ReadInt32(bytes, pos);
    pos := pos + RAW_KEY_LEN_SIZE;
    var valLen :- ReadInt32(bytes, pos);
    pos := pos + VAL_LEN_SIZE;
    assert ParseAt(b, offset) == ParseBody(b, pos, rawKeyLen, valLen);
    r := ParseBodyFrom(bytes, pos, rawKeyLen, valLen);
  }

  /** The two length fields of `parseFrom`: a 4-byte slice decoded by `toInt`. */
  method ReadInt32(bytes: array<Byte>, pos: int) returns (r: Result<int>)
    requires IsInt32(pos)
    ensures r.Ok? <==> SliceOf(Some(bytes[..]), pos, 4).Ok?
    ensures r.Err? ==> r.error == SliceOf(Some(bytes[..]), pos, 4).error
    ensures r.Ok? ==> r.value == DecodeInt32(SliceOf(Some(bytes[..]), pos, 4).value) && IsInt32(r.value)
  {
    var slice := Slice(bytes, pos, 4);
    if slice.Err? {
      return Err(slice.error);
    }
    var v := ToInt(slice.value);
    DecodeInRange(slice.value[..], 4);
    r := Ok(v);
  }

  /** The key of `parseFrom`, then the rest of the record. */
  method ParseBodyFrom(bytes: array<Byte>, keyPos: int, rawKeyLen: int, valLen: int) returns (r: Result<KeyValue>)
    requires IsInt32(keyPos) && IsInt32(rawKeyLen) && IsInt32(valLen) && bytes.Length <= INT32_MAX
    ensures r == ParseBody(bytes[..], keyPos, rawKeyLen, valLen)
  {
    var keyLen := Wrap32(rawKeyLen - OP_SIZE - SEQ_ID_SIZE);
    NarrowBounds(rawKeyLen - OP_SIZE - SEQ_ID_SIZE, 4);
    var keySlice := Slice(bytes, keyPos, keyLen);
    if keySlice.Err? {
      return Err(keySlice.error);
    }
    var pos := keyPos + keyLen;
    r := ParseTailFrom(bytes, pos, keySlice.value[..], valLen);
  }

  /** The rest of `parseFrom` from the op byte on. */
  method ParseTailFrom(bytes: array<Byte>, opPos: int, key: seq<Byte>, valLen: int) returns (r: Result<KeyValue>)
    requires IsInt32(opPos) && IsInt32(valLen) && bytes.Length <= INT32_MAX
    ensures r == ParseTail(bytes[..], opPos, key, valLen)
  {
    var pos := opPos;
    if pos < 0 || pos >= bytes.Length {
      return Err(IndexOutOfBounds);
    }
    var op := CodeToOp(bytes[pos]);
    if op.Err? {
      return Err(op.error);
    }
    pos := pos + OP_SIZE;
    var seqIdSlice := Slice(bytes, pos, SEQ_ID_SIZE);
    if seqIdSlice.Err? {
      return Err(seqIdSlice.error);
    }
    var sequenceId := ToLong(seqIdSlice.value);
    pos := pos + SEQ_ID_SIZE;
    var valSlice := Slice(bytes, pos, valLen);
    if valSlice.Err? {
      return Err(valSlice.error);
    }
    pos := pos + valLen;
    return NewKeyValue(key, valSlice.value[..], op.value, sequenceId);
  }

  // ---------------------------------------------------------------------------
  // Order
  // ---------------------------------------------------------------------------

  /** `compareTo`: key ascending, then the higher sequence id first, then Delete before Put. */
  function KvCompare(a: KeyValue, b: KeyValue): int
  {
    var ret := CompareBytes(a.key, b.key);
    if ret != 0 then ret
    else if a.sequenceId != b.sequenceId then (if a.sequenceId > b.sequenceId then -1 else 1)
    else if a.op != b.op then (if Code(a.op) > Code(b.op) then -1 else 1)
    else 0
  }

  /** `equals`: compareTo is zero, so the value does not take part. */
  predicate KvEquals(a: KeyValue, b: KeyValue)
  {
    KvCompare(a, b) == 0
  }

  predicate KvLess(a: KeyValue, b: KeyValue)
  {
    KvCompare(a, b) < 0
  }

  predicate KvLessEq(a: KeyValue, b: KeyValue)
  {
    KvCompare(a, b) <= 0
  }

  lemma {:induction false} EqualsIgnoresValue(a: KeyValue, b: KeyValue)
    ensures KvEquals(a, b) <==> a.key == b.key && a.sequenceId == b.sequenceId && a.op == b.op
  {
    CompareZeroIffEqual(a.key, b.key);
  }

  /** The order the comparator induces, spelled out: key, then newer first, then Delete first. */
  lemma {:induction false} KvLessMeans(a: KeyValue, b: KeyValue)
    ensures KvLess(a, b) <==>
      CompareBytes(a.key, b.key) < 0
      || (a.key == b.key && a.sequenceId > b.sequenceId)
      || (a.key == b.key && a.sequenceId == b.sequenceId && a.op == Delete && b.op == Put)
  {
    CompareZeroIffEqual(a.key, b.key);
  }

  lemma {:induction false} KvAntisymmetric(a: KeyValue, b: KeyValue)
    ensures KvLess(a, b) <==> KvLess(b, a) == false && !KvEquals(a, b)
    ensures KvEquals(a, b) <==> KvEquals(b, a)
  {
    CompareAntisymmetric(a.key, b.key);
  }

  lemma {:induction false} KvTransitive(a: KeyValue, b: KeyValue, c: KeyValue)
    ensures KvLess(a, b) && KvLess(b, c) ==> KvLess(a, c)
    ensures KvLessEq(a, b) && KvLessEq(b, c) ==> KvLessEq(a, c)
  {
    CompareZeroIffEqual(a.key, b.key);
    CompareZeroIffEqual(b.key, c.key);
    CompareZeroIffEqual(a.key, c.key);
    if CompareBytes(a.key, b.key) < 0 && CompareBytes(b.key, c.key) < 0 {
      CompareTransitive(a.key, b.key, c.key);
    }
  }

  /** Chaining a strict and a non-strict step gives a strict one. */
  lemma {:induction false} KvMixedTransitive(a: KeyValue, b: KeyValue, c: KeyValue)
    ensures KvLessEq(a, b) && KvLess(b, c) ==> KvLess(a, c)
    ensures KvLess(a, b) && KvLessEq(b, c) ==> KvLess(a, c)
  {
    KvTransitive(a, b, c);
    EqualsIgnoresValue(a, b);
    EqualsIgnoresValue(b, c);
  }

  lemma {:induction false} KvTotal(a: KeyValue, b: KeyValue)
    ensures KvLess(a, b) || KvEquals(a, b) || KvLess(b, a)
  {
    CompareAntisymmetric(a.key, b.key);
  }

  /** Sorted by the record order, equal records allowed side by side. */
  predicate Sorted(s: seq<KeyValue>)
  {
    forall i, j :: 0 <= i < j < |s| ==> KvLessEq(s[i], s[j])
  }

  /** Strictly sorted: what a sorted set or map keyed by records holds. */
  predicate StrictlySorted(s: seq<KeyValue>)
  {
    forall i, j :: 0 <= i < j < |s| ==> KvLess(s[i], s[j])
  }
}
