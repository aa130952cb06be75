# MiniBase core, modelled and verified in Dafny

MiniBase is a small log-structured merge-tree key-value engine written in
Java. This project models its non-I/O core in Dafny and proves what the code
promises about it. The core covers:

- **Byte codec** (`byte_utils.dfy`). Big-endian int and long encodings with
  the top bit flipped, the unsigned byte comparator, `slice`, the 33-based hash
  and `toHex`.
- **Record type** (`key_value.dfy`). `KeyValue`, its total order, and its wire
  format `rawKeyLen | valLen | key | op | seqId | value` with the parser.
- **Bloom filter** (`bloom_filter.dfy`). A filter built per block, with a
  32-bit probe sequence.
- **Data blocks** (`block.dfy`, `block_reader.dfy`, `crc32.dfy`). A data block
  is a record count, the records and a CRC-32 checksum. These files also hold
  the reader's cursor with its binary-search seek.
- **Block index and cache** (`block_meta.dfy`, `block_id.dfy`,
  `block_cache.dfy`). Block index entries, the block cache's key and the
  size-bounded LRU block cache.
- **Read filter** (`kv_filter.dfy`). Snapshot visibility and Bloom-based block
  pruning.
- **SSTable files** (`disk_file_writer.dfy`, `disk_file.dfy`). The writer emits
  blocks, an index and a 36-byte trailer. The reader opens such a file by
  checking the trailer and parsing the index, and iterates or seeks through the
  records a filter can see.
- **Disk store** (`seek_iter.dfy`, `disk_store.dfy`). The k-way merge iterator,
  file ids and names, compaction bookkeeping with reference-counted sweeping,
  the flush and the single-flight compaction guard.
- **MemStore** (`mem_store.dfy`). The active/immutable swap state machine with
  byte-size accounting and the "MemStore is full" rejection.
- **Read path** (`m_store.dfy`). The MVCC resolver `ScanIter`, scan bounds,
  point reads, and the update of the global version.
- **Write-ahead log** (`write_log_wal.dfy`, `base_log.dfy`). The consumer step
  numbers entries and routes them by WAL level. The log writer keeps buffer and
  position accounting, and the log reader parses records back to back.

Classes whose fields the Java code updates in place are Dafny classes. Each
such method states its new state as a step function of the old state, and
lemmas prove what the source promises about those step functions. Loops over
arrays stay loops with invariants. Order, encoding and parsing are functions
with lemmas.

Modelling conventions:

- Java bytes are their unsigned values 0..255.
- Java `int` and `long` are integers that are wrapped explicitly where the code
  can overflow.
- A Java `assert` is treated as enabled, so a failing one is an error result.
- A lock or compare-and-set becomes a sequential step. A compare-and-set is a
  test-and-set on a field.

Where what the code does differs from what it evidently means to do, the model
follows the code. Four such places are listed under "## Findings". Two more
are modelled as written without a finding:

- the Bloom filter's constructor stores the hash count as bits-per-key;
- the log writer's `size` is never reset by `sync`.

Three members the code calls are absent from the sources, so their behaviour
is assumed:

- `BloomFilter.setResult(b)` sets the bits to `b` and the bit length to 8·|b|.
- `KeyValue.getMemorySize()` is key length + value length + 9.
- The configuration getters become parameters.

## Model

| member | source | states |
|---|---|---|
| ByteUtils.ToBytesInt | src/main/java/org/kingdari/MiniBase/ByteUtils.java:60-70 | the array holds the 4-byte big-endian image of the int with the sign bit flipped |
| ByteUtils.ToBytesLong | src/main/java/org/kingdari/MiniBase/ByteUtils.java:72-81 | the array holds the 8-byte big-endian image of the long with the sign bit flipped |
| ByteUtils.ToInt | src/main/java/org/kingdari/MiniBase/ByteUtils.java:87-96 | returns the int decoded from the first 4 bytes; the caller's array ends as it started |
| ByteUtils.ToLong | src/main/java/org/kingdari/MiniBase/ByteUtils.java:98-106 | returns the long decoded from the first 8 bytes; the caller's array is left with its first byte's sign bit flipped |
| ByteUtils.EncodeIsBiased | src/main/java/org/kingdari/MiniBase/ByteUtils.java:60-81 | flipping the sign bit of the image equals encoding the value biased by half the range |
| ByteUtils.DecodeEncode | src/main/java/org/kingdari/MiniBase/ByteUtils.java:60-106 | decoding the encoding of any value of the width gives the value back |
| ByteUtils.Int32RoundTrip | src/test/java/org/kingdari/MiniBase/ByteUtilsTest.java:14 | `toInt(toBytes(v)) == v` for every Java int, and the image has 4 bytes |
| ByteUtils.Int64RoundTrip | src/test/java/org/kingdari/MiniBase/ByteUtilsTest.java:24 | `toLong(toBytes(v)) == v` for every Java long, and the image has 8 bytes |
| ByteUtils.EncodeDecode | src/main/java/org/kingdari/MiniBase/ByteUtils.java:60-106 | encoding a decoded value gives back the bytes it was read from |
| ByteUtils.Int32Codec | src/main/java/org/kingdari/MiniBase/ByteUtils.java:60-96 | any 4 bytes decode to a Java int whose encoding is those bytes |
| ByteUtils.Int64Codec | src/main/java/org/kingdari/MiniBase/ByteUtils.java:72-106 | any 8 bytes decode to a Java long whose encoding is those bytes |
| ByteUtils.EncodingPreservesOrder | src/main/java/org/kingdari/MiniBase/ByteUtils.java:38-81 | for values in range, a smaller value has an encoding that compares smaller as unsigned bytes |
| ByteUtils.Int32OrderPreserved | src/main/java/org/kingdari/MiniBase/ByteUtils.java:38-70 | the same for Java ints |
| ByteUtils.Int64OrderPreserved | src/main/java/org/kingdari/MiniBase/ByteUtils.java:38-81 | the same for Java longs |
| ByteUtils.Compare | src/main/java/org/kingdari/MiniBase/ByteUtils.java:38-54 | the loop's result is the lexicographic unsigned comparison, with null handled as the source does |
| ByteUtils.CompareZeroIffEqual | src/main/java/org/kingdari/MiniBase/ByteUtils.java:38-54 | compare is 0 exactly when the two arrays hold equal bytes |
| ByteUtils.CompareAntisymmetric | src/main/java/org/kingdari/MiniBase/ByteUtils.java:38-54 | swapping the arguments negates the result |
| ByteUtils.CompareTransitive | src/main/java/org/kingdari/MiniBase/ByteUtils.java:38-54 | the order is transitive |
| ByteUtils.ComparePrefixFirst | src/main/java/org/kingdari/MiniBase/ByteUtils.java:38-54 | a proper prefix sorts first |
| ByteUtils.HashBytes | src/main/java/org/kingdari/MiniBase/ByteUtils.java:27-36 | the loop computes `hash` of the key (a null key is 0) |
| ByteUtils.HashIsPolynomial | src/main/java/org/kingdari/MiniBase/ByteUtils.java:27-36 | the wrapped loop equals the base-33 polynomial with seed 1, reduced to a Java int |
| ByteUtils.SliceOf | src/main/java/org/kingdari/MiniBase/ByteUtils.java:108-117 | a successful slice is exactly the requested in-bounds range of a non-null array |
| ByteUtils.SliceSucceeds | src/main/java/org/kingdari/MiniBase/ByteUtils.java:108-117 | for Java-int arguments the slice succeeds iff the range lies inside the array, and then holds those bytes |
| ByteUtils.SliceOk | src/main/java/org/kingdari/MiniBase/ByteUtils.java:108-117 | an in-bounds range is sliced as it is |
| ByteUtils.Slice | src/main/java/org/kingdari/MiniBase/ByteUtils.java:108-117 | returns a fresh array with the slice, or the failure the range check or the copy raises |
| ByteUtils.ToHex | src/main/java/org/kingdari/MiniBase/ByteUtils.java:16-25 | with the loop bound `offset + len` wrapped to an int: empty when that bound is not above offset (a non-positive length, or an end past the int range), an index failure when the loop would leave the array, otherwise `\xHH` per byte of the range |
| ByteUtils.Wrap32Over | src/main/java/org/kingdari/MiniBase/ByteUtils.java:18 | a sum just above the int range wraps to that sum minus 2^32, below zero |
| ByteUtils.HexDecodes | src/main/java/org/kingdari/MiniBase/ByteUtils.java:16-25 | each byte becomes `\x` and two hex digits whose value is the unsigned byte |
| ByteUtils.HexOfEncoded123456 | src/test/java/org/kingdari/MiniBase/ByteUtilsTest.java:33-35 | `toHex(toBytes(123456))` is `\x80\x01\xE2\x40` |
| Crc32.UpdateConcat | src/main/java/org/kingdari/MiniBase/BlockWriter.java:33-42 | feeding the records' bytes one append at a time leaves the checksum register where feeding their concatenation would |
| Crc32.CheckValue | src/main/java/org/kingdari/MiniBase/BlockWriter.java:56-58 | the checksum is the standard CRC-32: the digits "123456789" give 0xCBF43926 |
| KeyValues.CodeToOpInverse | src/main/java/org/kingdari/MiniBase/KeyValue.java:27-40 | decoding an op's code gives the op back, and any code that decodes re-encodes to itself; other codes are an error |
| KeyValues.NewKeyValue | src/main/java/org/kingdari/MiniBase/KeyValue.java:51-60 | a key-value is built exactly when the sequence id is at least -1, and then holds the given fields |
| KeyValues.CreateShapes | src/main/java/org/kingdari/MiniBase/KeyValue.java:43-49 | createPut keeps key and value with op Put; createDelete has an empty value and op Delete; both fail below -1 |
| KeyValues.SerializeLength | src/main/java/org/kingdari/MiniBase/KeyValue.java:78-84 | the serialised size is 4 + 4 + (key length + 1 + 8) + value length, and the image has exactly that length |
| KeyValues.SerializeFields | src/main/java/org/kingdari/MiniBase/KeyValue.java:86-114 | the image is raw key length, value length, key, op code, sequence id and value, each at its offset |
| KeyValues.ToBytes | src/main/java/org/kingdari/MiniBase/KeyValue.java:86-114 | the fresh array filled field by field holds exactly the serialised image |
| KeyValues.ParseSerialize | src/main/java/org/kingdari/MiniBase/KeyValue.java:116-139 | a record serialised anywhere inside a buffer parses back to itself at its offset |
| KeyValues.ParseSerializedAt | src/main/java/org/kingdari/MiniBase/KeyValue.java:116-139 | wherever a buffer's bytes from an offset are a record's image, parsing there returns that record |
| KeyValues.ParseSerializeAtZero | src/main/java/org/kingdari/MiniBase/KeyValue.java:116-139 | parseFrom(toBytes(kv), 0) == kv |
| KeyValues.KeyLenWrap | src/main/java/org/kingdari/MiniBase/KeyValue.java:127 | the key length rawKeyLen - 9 wraps only below -2^31 + 9, and then it is at least 2^31 - 9 |
| KeyValues.ParsedIsSerialized | src/main/java/org/kingdari/MiniBase/KeyValue.java:116-139 | whatever parseFrom accepts is a valid record whose image is exactly the bytes it consumed |
| KeyValues.ParsedRecordIsSerialized | src/main/java/org/kingdari/MiniBase/KeyValue.java:116-139 | the same, for a record known by name |
| KeyValues.ParseFrom | src/main/java/org/kingdari/MiniBase/KeyValue.java:116-139 | the array-based parse returns the parse of the array's contents, including the null-array and out-of-range errors |
| KeyValues.ReadInt32 | src/main/java/org/kingdari/MiniBase/KeyValue.java:123-126 | reading a length succeeds exactly when the four-byte slice does, fails with the slice's error otherwise, and yields the decoded int |
| KeyValues.ParseBodyFrom | src/main/java/org/kingdari/MiniBase/KeyValue.java:127-138 | past the header, the key, op, sequence id and value are read as the record specification reads them, errors included |
| KeyValues.ParseTailFrom | src/main/java/org/kingdari/MiniBase/KeyValue.java:130-138 | from the op byte on, the op, sequence id and value are read as the record specification reads them, errors included |
| KeyValues.ParseRejects | src/main/java/org/kingdari/MiniBase/KeyValue.java:116-134 | parseFrom fails on a null buffer, on a header that leaves no room past the length fields, on a key or op byte past the end, on an op code other than 0 or 1, and on a sequence id or value running past the end |
| KeyValues.EqualsIgnoresValue | src/main/java/org/kingdari/MiniBase/KeyValue.java:147-152 | two key-values are equal exactly when key, sequence id and op agree; the value is ignored |
| KeyValues.KvLessMeans | src/main/java/org/kingdari/MiniBase/KeyValue.java:165-179 | a sorts before b by key, then by larger sequence id first, then Delete before Put |
| KeyValues.KvAntisymmetric | src/main/java/org/kingdari/MiniBase/KeyValue.java:165-179 | a < b exactly when neither b < a nor a equals b, and equality is symmetric |
| KeyValues.KvTransitive | src/main/java/org/kingdari/MiniBase/KeyValue.java:165-179 | the comparator's strict and non-strict orders are transitive |
| KeyValues.KvMixedTransitive | src/main/java/org/kingdari/MiniBase/KeyValue.java:165-179 | a non-strict step followed or preceded by a strict one is strict |
| KeyValues.KvTotal | src/main/java/org/kingdari/MiniBase/KeyValue.java:165-179 | any two key-values are ordered one way, the other, or equal |
| BloomFilters.BloomFilter.constructor | src/main/java/org/kingdari/MiniBase/BloomFilter.java:9-12 | the hash count is stored as both k and bitsPerKey; the bits-per-key argument is ignored, and no filter bytes exist yet |
| BloomFilters.BloomFilter.Generate | src/main/java/org/kingdari/MiniBase/BloomFilter.java:14-31 | bitLen becomes the rounded bit length for the key count, a fresh array becomes the filter, and its bytes are the generated filter; a probe index at or below -8 (only possible past 2^30 bits) is IndexOutOfBounds, while one in -7..-1 sets no bit |
| BloomFilters.BloomFilter.MayContains | src/main/java/org/kingdari/MiniBase/BloomFilter.java:33-45 | the answer is the probe of the key's hash sequence against the stored bits, where a probe index in -7..-1 tests the sign bit of byte 0 and one at or below -8 fails; nothing changes |
| BloomFilters.BloomFilter.SetResult | src/main/java/org/kingdari/MiniBase/KeyValueFilter.java:74 | adopting a byte array makes it the filter and sets bitLen to eight bits per byte |
| BloomFilters.AddKeysInto | src/main/java/org/kingdari/MiniBase/BloomFilter.java:20-29 | the outer loop sets in place exactly the bits the key-by-key specification sets, with Java's truncating byte index and masked shift, and fails exactly when it does |
| BloomFilters.AddProbesInto | src/main/java/org/kingdari/MiniBase/BloomFilter.java:23-28 | the inner loop ORs in place exactly the probe bits of one key, a bit above 7 being dropped by the narrowing to a byte, and fails exactly when the byte index is negative |
| BloomFilters.JavaRem | src/main/java/org/kingdari/MiniBase/BloomFilter.java:24 | Java's truncating remainder lies strictly between -b and b and is non-negative for a non-negative dividend |
| BloomFilters.Delta | src/main/java/org/kingdari/MiniBase/BloomFilter.java:26 | the rotation-like delta (h >> 17) \| (h << 15) is a Java int |
| BloomFilters.NextHash | src/main/java/org/kingdari/MiniBase/BloomFilter.java:27 | h += delta wraps to a Java int |
| BloomFilters.ProbeIndexInRange | src/main/java/org/kingdari/MiniBase/BloomFilter.java:24 | (h % bitLen + bitLen) % bitLen is a valid bit position whenever bitLen is at most 2^30 |
| BloomFilters.JavaDiv8 | src/main/java/org/kingdari/MiniBase/BloomFilter.java:25 | idx / 8 truncates: it is idx / 8 for idx >= 0, 0 for idx in -7..-1, and negative only for idx <= -8 |
| BloomFilters.ShiftOf | src/main/java/org/kingdari/MiniBase/BloomFilter.java:25 | the shift of 1 << (idx % 8) is idx % 8 for idx >= 0 and 32 + idx for idx in -7..-1, since an int shift uses its low five bits |
| BloomFilters.BitLen | src/main/java/org/kingdari/MiniBase/BloomFilter.java:16-18 | the bit length is a multiple of 8, at least 64, and a Java int |
| BloomFilters.BitLenCovers | src/main/java/org/kingdari/MiniBase/BloomFilter.java:16-18 | without overflow the filter has at least bitsPerKey bits per key and rounds up by less than 8 (or is the 64-bit floor) |
| BloomFilters.GenerateBits | src/main/java/org/kingdari/MiniBase/BloomFilter.java:14-31 | the filter has bitLen / 8 bytes for the computed bitLen; its only failure is an index out of bounds |
| BloomFilters.GenerateSucceeds | src/main/java/org/kingdari/MiniBase/BloomFilter.java:14-31 | generate cannot fail while the bit length is at most 2^30 |
| BloomFilters.SetBitMeans | src/main/java/org/kingdari/MiniBase/BloomFilter.java:25 | result[idx / 8] \|= 1 << (idx % 8) sets that bit and changes no other bit of the byte |
| BloomFilters.BitsOfFromBits | src/main/java/org/kingdari/MiniBase/BloomFilter.java:25 | the bit view of a byte and the byte built from bits are inverse (bits to number to bits) |
| BloomFilters.FromBitsOfBits | src/main/java/org/kingdari/MiniBase/BloomFilter.java:25 | the bit view of a byte and the byte built from bits are inverse (number to bits to number) |
| BloomFilters.ProbeCovered | src/main/java/org/kingdari/MiniBase/BloomFilter.java:33-45 | a key found in one filter is found in any filter that has at least its bits |
| BloomFilters.AddProbesFound | src/main/java/org/kingdari/MiniBase/BloomFilter.java:23-28 | with at most 2^30 bits, one key's probes are set without failure, and probing for that key then finds every bit set |
| BloomFilters.AddKeysFound | src/main/java/org/kingdari/MiniBase/BloomFilter.java:20-29 | with at most 2^30 bits, all keys are added without failure and every key's probe then finds all its bits |
| BloomFilters.AddKeysErrorStays | src/main/java/org/kingdari/MiniBase/BloomFilter.java:20-29 | once a key's probe byte index is negative, generating over any longer key list fails |
| BloomFilters.NoFalseNegatives | src/main/java/org/kingdari/MiniBase/BloomFilter.java:14-45 | with a bit length of at most 2^30, generate succeeds and the filter answers "may contain" for every key it was built over |
| BloomFilters.WrappedProbeMisses | src/main/java/org/kingdari/MiniBase/BloomFilter.java:24-25 | past 2^30 bits the property fails: with bitLen 2^31 - 8, hash 13 probes index -3, generate sets no bit for it, and mayContains answers false |
| BloomFilters.OrCovers | src/main/java/org/kingdari/MiniBase/BloomFilter.java:25 | one `result[idx / 8] \|= 1 << (idx % 8)` only adds bits, whether or not the narrowing drops the bit |
| BloomFilters.BlockFilterFits | src/main/java/org/kingdari/MiniBase/BloomFilter.java:16-18 | with the block parameters, up to 2^28 keys give at most 2^30 bits |
| Blocks.BlockWriter.constructor | src/main/java/org/kingdari/MiniBase/BlockWriter.java:24-31 | a new block writer holds no records, size 0, no last record and a fresh bloom filter |
| Blocks.BlockWriter.Append | src/main/java/org/kingdari/MiniBase/BlockWriter.java:33-42 | the record joins the buffer and becomes the last record; the count grows by one and the size by its serialised size |
| Blocks.FeedRecord | src/main/java/org/kingdari/MiniBase/BlockWriter.java:37-38 | the checksum register after feeding it the record's serialised bytes |
| Blocks.TracksAppend | src/main/java/org/kingdari/MiniBase/BlockWriter.java:33-42 | appending keeps the size, count, checksum register and last record in step with the records held |
| Blocks.BlockWriter.GetKvCount | src/main/java/org/kingdari/MiniBase/BlockWriter.java:44-46 | the count is the number of records appended |
| Blocks.BlockWriter.Size | src/main/java/org/kingdari/MiniBase/BlockWriter.java:48-50 | the size is a Java int, and while it does not overflow it is the length of the serialised block |
| Blocks.BlockWriter.GetLastKv | src/main/java/org/kingdari/MiniBase/BlockWriter.java:52-54 | the last record appended, or none before any |
| Blocks.BlockWriter.GetCheckSum | src/main/java/org/kingdari/MiniBase/BlockWriter.java:56-58 | the CRC-32 of the appended records' bytes, as a Java int |
| Blocks.BlockWriter.GetBloomFilter | src/main/java/org/kingdari/MiniBase/BlockWriter.java:60-66 | a fresh array with the filter generated over the appended keys, in append order |
| Blocks.CollectKeys | src/main/java/org/kingdari/MiniBase/BlockWriter.java:61-64 | the loop gathers the keys of the records in order |
| Blocks.WriterFilterHasKeys | src/main/java/org/kingdari/MiniBase/BlockWriter.java:60-66 | for a block of up to 2^28 records, the bloom filter is built and never rules out a key appended to the block |
| Blocks.BlockWriter.Serialize | src/main/java/org/kingdari/MiniBase/BlockWriter.java:68-88 | the fresh buffer is the record count, the records' bytes and the checksum |
| Blocks.BlockWriter.WriteChecksum | src/main/java/org/kingdari/MiniBase/BlockWriter.java:82-87 | with the count and the records already in place, the buffer becomes the whole block: the checksum of the records fills the last four bytes |
| Blocks.WriteRecords | src/main/java/org/kingdari/MiniBase/BlockWriter.java:76-80 | the copy loop leaves the cursor after the records and the buffer holding the earlier bytes then the records' bytes |
| Blocks.RecordsLength | src/main/java/org/kingdari/MiniBase/BlockWriter.java:48-50 | the records' bytes are as long as their sizes add up to, at least 17 bytes per record |
| Blocks.BlockBytesLength | src/main/java/org/kingdari/MiniBase/BlockWriter.java:68-88 | a serialised block is 4 + the records' sizes + 4 bytes long |
| Blocks.RecordsOk | src/main/java/org/kingdari/MiniBase/BlockReader.java:91-96 | the record loop returns the records exactly when each parses where the one before it ended |
| Blocks.RecordsErrorStays | src/main/java/org/kingdari/MiniBase/BlockReader.java:91-96 | an error in some round is the loop's result however many more rounds are asked for |
| Blocks.RecordsRoundTrip | src/main/java/org/kingdari/MiniBase/BlockReader.java:91-96 | records serialised back to back parse back, ending right after the last one |
| Blocks.ParsedRecordsAreSerialized | src/main/java/org/kingdari/MiniBase/BlockReader.java:91-96 | whatever the record loop accepts is valid records whose bytes are exactly those consumed |
| Blocks.BlockRoundTrip | src/main/java/org/kingdari/MiniBase/BlockReader.java:83-104 | parseFrom returns the records of a serialised block wherever it sits, when size is the position right after it |
| Blocks.BlockRoundTripAtZero | src/main/java/org/kingdari/MiniBase/BlockReader.java:83-104 | parseFrom(serialize(), 0, size()) returns the appended records |
| Blocks.ParsedBlockIsSerialized | src/main/java/org/kingdari/MiniBase/BlockReader.java:83-104 | whatever parseFrom accepts is records whose bytes sit between the count and a matching checksum and end at size |
| BlockReaders.ReadRecords | src/main/java/org/kingdari/MiniBase/BlockReader.java:91-96 | the loop returns what the record-loop specification returns for kvSize rounds, and its checksum register is the CRC of exactly the bytes consumed |
| BlockReaders.ReadBlock | src/main/java/org/kingdari/MiniBase/BlockReader.java:83-104 | the count, record loop, checksum and position checks return the block parse of the buffer, errors included |
| BlockReaders.ReadAfterCount | src/main/java/org/kingdari/MiniBase/BlockReader.java:89-103 | once the count is read, the record loop, the checksum and the two assertions give the block parse of the buffer, errors included |
| BlockReaders.ReadTail | src/main/java/org/kingdari/MiniBase/BlockReader.java:98-103 | after the records: a missing checksum fails with the slice's error, a checksum other than the CRC of the record bytes or a length other than `size` fails the assertion, and otherwise the records are returned |
| BlockReaders.BlockReader.ParseFrom | src/main/java/org/kingdari/MiniBase/BlockReader.java:83-104 | parseFrom yields a fresh reader holding the parsed records exactly when the block parses, and otherwise the parse's error |
| BlockReaders.ParsedBlockFits | src/main/java/org/kingdari/MiniBase/BlockReader.java:83-104 | a parsed block holds no more records than a Java int can count |
| BlockReaders.BlockReader.constructor | src/main/java/org/kingdari/MiniBase/BlockReader.java:66-78 | the reader holds the given records, with their memory sizes added up |
| BlockReaders.SumMemorySizes | src/main/java/org/kingdari/MiniBase/BlockReader.java:66-78 | the constructor's loop adds up every record's memory size |
| BlockReaders.MemorySumAppend | src/main/java/org/kingdari/MiniBase/BlockReader.java:66-78 | memory sizes add up over a concatenation, at least 9 bytes per record |
| BlockReaders.BlockReader.GetMemorySizeSize | src/main/java/org/kingdari/MiniBase/BlockReader.java:106-108 | the sum of the records' memory sizes |
| BlockReaders.BlockReader.GetKeyValues | src/main/java/org/kingdari/MiniBase/BlockReader.java:110-112 | the records in block order |
| BlockReaders.BlockReader.Iterator | src/main/java/org/kingdari/MiniBase/BlockReader.java:114-116 | a fresh cursor over this reader's records, at position 0, with the given filter |
| BlockReaders.BlockReader.Equals | src/main/java/org/kingdari/MiniBase/BlockReader.java:119-124 | equal exactly when the other reader exists and its record list is element-wise equal |
| BlockReaders.ListEqualsMeans | src/main/java/org/kingdari/MiniBase/BlockReader.java:119-124 | list equality is equal length and equal records at every index |
| BlockReaders.ListEqualsReflexive | src/main/java/org/kingdari/MiniBase/BlockReader.java:119-124 | a reader's list equals itself, which the identity short-cut relies on |
| BlockReaders.DataBlockIterator.constructor | src/main/java/org/kingdari/MiniBase/BlockReader.java:20-25 | the cursor holds the reader, the filter and the reader's records, at position 0 |
| BlockReaders.FirstVisible | src/main/java/org/kingdari/MiniBase/BlockReader.java:27-36 | the first visible record at or after the cursor, with nothing visible skipped, or the position itself past the end |
| BlockReaders.DataBlockIterator.FetchNext | src/main/java/org/kingdari/MiniBase/BlockReader.java:27-36 | the cursor moves to the first visible record and returns it, or none at the end |
| BlockReaders.DataBlockIterator.HasNext | src/main/java/org/kingdari/MiniBase/BlockReader.java:54-57 | true exactly when a visible record remains; the cursor moves to it |
| BlockReaders.DataBlockIterator.Next | src/main/java/org/kingdari/MiniBase/BlockReader.java:60-64 | returns the next visible record (none at the end) and moves the cursor one past it |
| BlockReaders.NextYieldsVisible | src/main/java/org/kingdari/MiniBase/BlockReader.java:27-64 | the visible records from the cursor on are the one next returns followed by those after it |
| BlockReaders.SkipsToFirstVisible | src/main/java/org/kingdari/MiniBase/BlockReader.java:27-36 | skipping invisible records loses no visible one, and a visible record remains exactly when fetchNext finds one |
| BlockReaders.SeekPosAsWritten | src/main/java/org/kingdari/MiniBase/BlockReader.java:39-51 | the binary search as written, whose test is "visible and not before target", leaves the cursor within the block |
| BlockReaders.SeekAsWrittenSkipsVisible | src/main/java/org/kingdari/MiniBase/BlockReader.java:39-51 | on a sorted block with a record newer than the snapshot in the middle, the search as written skips a visible record not before the target |
| BlockReaders.SeekFindsFirstVisible | src/main/java/org/kingdari/MiniBase/BlockReader.java:39-51 | on that same block the corrected search stops at index 0 and iteration yields both visible records |
| BlockReaders.SeekIndex | src/main/java/org/kingdari/MiniBase/BlockReader.java:40-50 | the binary-search loop, with the corrected test, ends at the corrected seek position |
| BlockReaders.SeekPosSplits | src/main/java/org/kingdari/MiniBase/BlockReader.java:39-51 | on a sorted block every record before the corrected seek position is before the target and none from it on is |
| BlockReaders.SeekYieldsAtLeast | src/main/java/org/kingdari/MiniBase/BlockReader.java:39-51 | after the corrected seek, iteration yields exactly the visible records not before the target, in block order |
| BlockReaders.DataBlockIterator.SeekTo | src/main/java/org/kingdari/MiniBase/BlockReader.java:39-51 | the cursor moves to the corrected seek position and nothing else changes |
| BlockMetas.MetaBytesLength | src/main/java/org/kingdari/MiniBase/BlockMeta.java:46-48 | the serialised meta is exactly getSerializeSize bytes long |
| BlockMetas.ToBytes | src/main/java/org/kingdari/MiniBase/BlockMeta.java:50-75 | the fresh array holds the last record, then offset, size, filter length and filter bytes |
| BlockMetas.WriteTail | src/main/java/org/kingdari/MiniBase/BlockMeta.java:58-71 | the bytes after the record become the offset, the size, the filter length and the filter; what precedes them is unchanged |
| BlockMetas.MetaParseSerialize | src/main/java/org/kingdari/MiniBase/BlockMeta.java:77-92 | a meta serialised anywhere inside a buffer parses back to itself at its offset |
| BlockMetas.MetaParseAt | src/main/java/org/kingdari/MiniBase/BlockMeta.java:77-92 | a record that parses followed by a meta's tail parses to that meta |
| BlockMetas.ParsedMetaIsSerialized | src/main/java/org/kingdari/MiniBase/BlockMeta.java:77-92 | whatever parseFrom accepts is a valid meta whose bytes sit in the buffer at the offset |
| BlockMetas.ParsedMetaFits | src/main/java/org/kingdari/MiniBase/BlockMeta.java:77-92 | a parsed meta lies inside the buffer and takes at least one byte, so the index loop advances |
| BlockMetas.ParseFrom | src/main/java/org/kingdari/MiniBase/BlockMeta.java:77-92 | the array-based parse returns the parse of the array's contents, including its error cases |
| BlockMetas.ParseFromArray | src/main/java/org/kingdari/MiniBase/BlockMeta.java:78-91 | on a non-null buffer the parse returns the meta parse of its contents: a record failure is returned as is, and otherwise the fields after it are read |
| BlockMetas.ParseAfterRecord | src/main/java/org/kingdari/MiniBase/BlockMeta.java:80-91 | once the record at `offset` has parsed, reading the fields after it gives the meta parse at `offset` |
| BlockMetas.ParseTailFrom | src/main/java/org/kingdari/MiniBase/BlockMeta.java:81-91 | the two longs, the filter length and the filter are read from `start` exactly as the tail specification reads them, errors included |
| BlockMetas.MetaEqualsMeans | src/main/java/org/kingdari/MiniBase/BlockMeta.java:100-105 | equal metas agree on offset, size, filter bytes and the last record's key, sequence id and op |
| BlockMetas.MetaEqualsCompare | src/main/java/org/kingdari/MiniBase/BlockMeta.java:95-105 | equal metas compare as 0, but metas comparing as 0 need not be equal |
| BlockMetas.SeekDummyOrder | src/main/java/org/kingdari/MiniBase/BlockMeta.java:14-16 | a seek dummy compares with any meta as its record compares with that meta's last record |
| BlockIds.BlockIdEqualsMeans | src/main/java/org/kingdari/MiniBase/BlockId.java:23-28 | equal ids name the same file and metas that agree on everything but the last record's value |
| BlockIds.BlockIdEqualsEquivalence | src/main/java/org/kingdari/MiniBase/BlockId.java:23-28 | id equality is reflexive, symmetric and transitive |
| BlockIds.HashAsWrittenBreaksEquals | src/main/java/org/kingdari/MiniBase/BlockId.java:31-33 | as written, one id equal to itself gets two hash codes when its last record is held by objects with different identity hashes |
| BlockIds.HashRespectsEquals | src/main/java/org/kingdari/MiniBase/BlockId.java:31-33 | with the record hash over key, sequence id and op, equal ids hash alike |
| KeyValueFilters.KeyValueFilter.constructor | src/main/java/org/kingdari/MiniBase/KeyValueFilter.java:8-22 | a fresh filter has an empty range, no key, and version Long.MAX_VALUE, so every record is visible |
| KeyValueFilters.KeyValueFilter.SetRange | src/main/java/org/kingdari/MiniBase/KeyValueFilter.java:32-36 | the range is set, the rest kept, and the filter itself returned |
| KeyValueFilters.KeyValueFilter.SetVersionIfAbsent | src/main/java/org/kingdari/MiniBase/KeyValueFilter.java:42-45 | only a filter still at Long.MAX_VALUE takes the version; the rest is kept and the filter returned |
| KeyValueFilters.KeyValueFilter.SetVersion | src/main/java/org/kingdari/MiniBase/KeyValueFilter.java:47-50 | the version is set, the rest kept, and the filter returned |
| KeyValueFilters.KeyValueFilter.SetKey | src/main/java/org/kingdari/MiniBase/KeyValueFilter.java:60-63 | the key is set, the rest kept, and the filter returned |
| KeyValueFilters.KeyValueFilter.GetFilteredMeta | src/main/java/org/kingdari/MiniBase/KeyValueFilter.java:65-80 | with no key the file's meta set itself; otherwise the metas the loop keeps, or the loop's failure |
| KeyValueFilters.TestMeta | src/main/java/org/kingdari/MiniBase/KeyValueFilter.java:74-75 | one round: the meta's filter bytes are adopted and the answer is the keep test (always true for the shared empty key) |
| KeyValueFilters.FilterErrorStays | src/main/java/org/kingdari/MiniBase/KeyValueFilter.java:73-78 | a failure in some round ends getFilteredMeta with that failure |
| KeyValueFilters.FilterMetasMeans | src/main/java/org/kingdari/MiniBase/KeyValueFilter.java:65-80 | the kept metas are exactly the metas whose bloom test says yes, in their original order |
| KeyValueFilters.FilteredMetaSorted | src/main/java/org/kingdari/MiniBase/KeyValueFilter.java:65-80 | on a sorted meta set the result is a sorted subset of it |
| KeyValueFilters.NeverPrunesWrittenKey | src/main/java/org/kingdari/MiniBase/KeyValueFilter.java:73-78 | a block whose filter was generated over up to 2^28 keys including the key is never pruned |
| BlockCaches.BlockCache.constructor | src/main/java/org/kingdari/MiniBase/BlockCache.java:11-32 | a new cache is empty with nowSize 0 and the given capacity |
| BlockCaches.BlockCache.Put | src/main/java/org/kingdari/MiniBase/BlockCache.java:17-30 | a new key is appended as most recently used and the eldest entry evicted when nowSize exceeds the capacity; a key already held gets the new reader, with the old reader's size taken out; nowSize stays the size of what is cached |
| BlockCaches.AddNewAccounted | src/main/java/org/kingdari/MiniBase/BlockCache.java:17-30 | inserting a new key keeps nowSize equal to the cached size and keys unique |
| BlockCaches.AddNewEvictsAtMostOne | src/main/java/org/kingdari/MiniBase/BlockCache.java:23-30 | one insertion evicts at most the least recently used entry, and only when nowSize goes over the capacity |
| BlockCaches.ReplaceAsWrittenOvercounts | src/main/java/org/kingdari/MiniBase/BlockCache.java:17-20 | as written, putting a key already held leaves one entry but nowSize at twice its size |
| BlockCaches.ReplaceAccounted | src/main/java/org/kingdari/MiniBase/BlockCache.java:17-20 | putting a key already held, with the replaced size taken out, keeps the accounting |
| BlockCaches.BlockCache.Lookup | src/main/java/org/kingdari/MiniBase/BlockCache.java:44 | the access-ordered map's get: the reader of an equal key, which becomes the most recently used; none on a miss |
| BlockCaches.TouchAccounted | src/main/java/org/kingdari/MiniBase/BlockCache.java:44 | an access keeps the accounting and moves the entry to the most recently used end, a permutation of the entries |
| BlockCaches.TouchedSurvives | src/main/java/org/kingdari/MiniBase/BlockCache.java:23-30 | a just-accessed entry survives the next eviction while a less recently used entry exists |
| BlockCaches.BlockCache.Get | src/main/java/org/kingdari/MiniBase/BlockCache.java:43-50 | a hit returns the cached reader and makes it most recently used; a miss puts the loaded reader and returns it |
| BlockCaches.ZeroSizesStay | src/main/java/org/kingdari/MiniBase/BlockCache.java:17-30 | readers of size 0 never cause an eviction |
| BlockCaches.ElevenByteReadersSettleAtTwo | src/main/java/org/kingdari/MiniBase/BlockCache.java:17-30 | eleven-byte readers into a 32-byte cache: after n insertions it holds the last min(n, 2) |
| DiskFileWriters.BlockIndexWriter.constructor | src/main/java/org/kingdari/MiniBase/DiskFileWriter.java:18-20 | a new index writer holds no metas |
| DiskFileWriters.BlockIndexWriter.Append | src/main/java/org/kingdari/MiniBase/DiskFileWriter.java:22-26 | one more meta at the end of the index, with its byte total kept |
| DiskFileWriters.BlockIndexWriter.Serialize | src/main/java/org/kingdari/MiniBase/DiskFileWriter.java:28-38 | the metas' bytes in append order when their total fits an int; past that the negative or short buffer fails |
| DiskFileWriters.WriteMetas | src/main/java/org/kingdari/MiniBase/DiskFileWriter.java:31-35 | the copy loop writes the metas' bytes exactly when they fit the buffer |
| DiskFileWriters.IndexBytesLength | src/main/java/org/kingdari/MiniBase/DiskFileWriter.java:28-38 | the index bytes are exactly totalBytes long |
| DiskFileWriters.IndexSizeBounds | src/main/java/org/kingdari/MiniBase/DiskFileWriter.java:28-38 | a non-empty index takes at least one byte |
| DiskFileWriters.IndexLengthFits | src/main/java/org/kingdari/MiniBase/DiskFileWriter.java:104-106 | a serialised index is as long as its recorded size, which fits in an int |
| DiskFileWriters.InsertMetaGreatest | src/main/java/org/kingdari/MiniBase/DiskFile.java:189 | a meta above every meta of a sorted set goes at its end |
| DiskFileWriters.IndexParses | src/main/java/org/kingdari/MiniBase/DiskFile.java:184-192 | the index loop over the bytes of strictly increasing metas adds exactly those metas, with no failure |
| DiskFileWriters.IndexRoundTrip | src/main/java/org/kingdari/MiniBase/DiskFile.java:184-192 | the index the writer produces from strictly increasing metas parses back into them |
| DiskFileWriters.DiskFileWriter.constructor | src/main/java/org/kingdari/MiniBase/DiskFileWriter.java:52-66 | a new writer over an empty file, with offset, counters and trailer fields at 0 and an empty block |
| DiskFileWriters.DiskFileWriter.SwitchNextBlockWriter | src/main/java/org/kingdari/MiniBase/DiskFileWriter.java:68-80 | the current block's bytes are written, its meta (last record, offset, length, filter) joins the index, the offset and block count move on, and a new block begins |
| DiskFileWriters.DiskFileWriter.FinishSwitch | src/main/java/org/kingdari/MiniBase/DiskFileWriter.java:72-79 | after the block's bytes are out, its meta joins the index and a fresh block writer starts; the new state and result are the switch step's, a filter error included |
| DiskFileWriters.BlockFilter | src/main/java/org/kingdari/MiniBase/DiskFileWriter.java:72-74 | the filter handed to the index is the Bloom filter over the block's keys, or its error |
| DiskFileWriters.SwitchedMetaValid | src/main/java/org/kingdari/MiniBase/DiskFileWriter.java:72-74 | the meta of a block under the limit is one the index can serialise |
| DiskFileWriters.DiskFileWriter.Append | src/main/java/org/kingdari/MiniBase/DiskFileWriter.java:82-97 | null is ignored; an oversized record fails the assertion; a record that would take a non-empty block to the limit goes to a new block after the current one is written |
| DiskFileWriters.DiskFileWriter.AppendRecord | src/main/java/org/kingdari/MiniBase/DiskFileWriter.java:91-96 | past the checks: switch blocks if needed, then the record joins the current block |
| DiskFileWriters.DiskFileWriter.SwitchThenAppend | src/main/java/org/kingdari/MiniBase/DiskFileWriter.java:91-96 | when the record would overflow a non-empty block, the block is switched out first; the new state and result are the append step's |
| DiskFileWriters.AppendFits | src/main/java/org/kingdari/MiniBase/DiskFileWriter.java:86-96 | a record that passes append's checks, with the size assertion summed exactly, keeps the current block under 2 MiB |
| DiskFileWriters.RecordFitsAsJava | src/main/java/org/kingdari/MiniBase/DiskFileWriter.java:86-89 | every record the exact check accepts passes Java's int-summed assertion, and Java's assertion also passes exactly the records of serialized size above 2^31 - 9 |
| DiskFileWriters.DiskFileWriter.AppendIndex | src/main/java/org/kingdari/MiniBase/DiskFileWriter.java:99-110 | a non-empty block is written first; the index follows the blocks, and its offset and length are kept |
| DiskFileWriters.DiskFileWriter.FlushThenWriteIndex | src/main/java/org/kingdari/MiniBase/DiskFileWriter.java:99-110 | with records pending, the block is switched out and then the index written; the new state and result are the index step's |
| DiskFileWriters.DiskFileWriter.AppendTrailer | src/main/java/org/kingdari/MiniBase/DiskFileWriter.java:112-119 | fileSize becomes offset + 36, and the five trailer fields are written |
| DiskFileWriters.TrailerOf | src/main/java/org/kingdari/MiniBase/DiskFileWriter.java:113-118 | the five fields through the byte codec are the trailer's bytes |
| DiskFileWriters.TrailerAppended | src/main/java/org/kingdari/MiniBase/DiskFileWriter.java:112-119 | writing the trailer leaves the fields the trailer step describes |
| DiskFiles.ReadAtMeans | src/main/java/org/kingdari/MiniBase/DiskFile.java:123-132 | a positioned read succeeds exactly on a range inside the file and returns the bytes there |
| DiskFiles.TrailerRoundTrip | src/main/java/org/kingdari/MiniBase/DiskFile.java:146-177 | a written trailer is 36 bytes and reads back as the same fields with the magic number |
| DiskFiles.ReadTrailerAt | src/main/java/org/kingdari/MiniBase/DiskFile.java:152-177 | the five trailer reads return the fields and the magic of the last 36 bytes |
| DiskFiles.InsertMetaSorted | src/main/java/org/kingdari/MiniBase/DiskFile.java:189 | adding to the sorted meta set keeps it sorted |
| DiskFiles.InsertMetaKeeps | src/main/java/org/kingdari/MiniBase/DiskFile.java:189 | adding a meta equal to one already in the set changes nothing |
| DiskFiles.InsertMetaAdds | src/main/java/org/kingdari/MiniBase/DiskFile.java:189 | adding a meta equal to none in the set adds exactly that meta |
| DiskFiles.ParseIndexFrom | src/main/java/org/kingdari/MiniBase/DiskFile.java:184-192 | the do-while loop over the index buffer returns what the index-parsing specification returns, failure included |
| DiskFiles.ReadIndex | src/main/java/org/kingdari/MiniBase/DiskFile.java:179-192 | the index read, the meta loop and the block-count check give the index-loading specification |
| DiskFiles.LoadIndexSorted | src/main/java/org/kingdari/MiniBase/DiskFile.java:179-192 | loading the index changes only the meta set and keeps it sorted |
| DiskFiles.LoadIndexSucceeds | src/main/java/org/kingdari/MiniBase/DiskFile.java:179-192 | a successful load read a non-empty index inside the file and left exactly blockCount metas |
| DiskFiles.OpenRejects | src/main/java/org/kingdari/MiniBase/DiskFile.java:146-177 | open fails on a file no longer than the trailer, on a recorded size other than the length, and on a wrong magic |
| DiskFiles.OpenedIndex | src/main/java/org/kingdari/MiniBase/DiskFile.java:146-195 | a successful open read a trailer with the file's own size and the magic, and left a sorted set of exactly blockCount metas from an index inside the file |
| DiskFiles.LoadedBlockFits | src/main/java/org/kingdari/MiniBase/DiskFile.java:123-132 | a loaded block holds no more records than a Java int can count |
| DiskFiles.DiskFile.constructor | src/main/java/org/kingdari/MiniBase/DiskFile.java:106-113 | a new disk file has its name, nothing read, no handle and no references |
| DiskFiles.DiskFile.Open | src/main/java/org/kingdari/MiniBase/DiskFile.java:146-195 | the handle is set, and the new state and result are the open specification's |
| DiskFiles.DiskFile.CreateReader | src/main/java/org/kingdari/MiniBase/DiskFile.java:123-132 | a fresh reader of the block at the meta's offset exactly when it reads and parses, otherwise that error |
| DiskFiles.DiskFile.Iterator | src/main/java/org/kingdari/MiniBase/DiskFile.java:212-215 | a reference is taken; the iterator's metas are the filtered set and its remaining records are the visible records of those blocks in order |
| DiskFiles.DiskFile.IteratorAll | src/main/java/org/kingdari/MiniBase/DiskFile.java:208-210 | a reference is taken; the iterator yields every record of every block |
| DiskFiles.DiskFile.Close | src/main/java/org/kingdari/MiniBase/DiskFile.java:198-206 | refused with references left; otherwise the handle is closed if one was opened |
| DiskFiles.DiskFile.Equals | src/main/java/org/kingdari/MiniBase/DiskFile.java:218-223 | equal exactly when the other file has the same name |
| DiskFiles.DiskFileIterator.constructor | src/main/java/org/kingdari/MiniBase/DiskFile.java:40-47 | no current block; the remaining records are the visible records of the filtered blocks |
| DiskFiles.PendingHead | src/main/java/org/kingdari/MiniBase/DiskFile.java:49-58 | the first block's load failure ends the stream, otherwise its visible records lead it |
| DiskFiles.DiskFileIterator.NextBlockReader | src/main/java/org/kingdari/MiniBase/DiskFile.java:49-58 | loads blocks until one has a visible record: true with the remaining records unchanged, or false (or the load error) once none remain |
| DiskFiles.DiskFileIterator.HasNext | src/main/java/org/kingdari/MiniBase/DiskFile.java:76-82 | true exactly when a record remains, with nothing consumed; otherwise false or the load error |
| DiskFiles.DiskFileIterator.Next | src/main/java/org/kingdari/MiniBase/DiskFile.java:85-87 | after hasNext, returns the first remaining record and leaves the rest; with no current block it is an error |
| DiskFiles.DiskFileIterator.SeekTo | src/main/java/org/kingdari/MiniBase/DiskFile.java:61-73 | the remaining records become those from the first block of the tail set whose seek finds a visible record, then the following blocks whole |
| DiskFiles.DiskFileIterator.Close | src/main/java/org/kingdari/MiniBase/DiskFile.java:90-92 | the file's reference count drops by one and nothing else of it changes |
| SeekIters.Wrap | src/main/java/org/kingdari/MiniBase/MemStore.java:27-30 | a wrapper over a sorted map's values has those values still to come, and has a next exactly when there are any |
| SeekIters.Advance | src/main/java/org/kingdari/MiniBase/MemStore.java:43-45 | next returns the first record still to come and leaves the rest |
| SeekIters.SeekLands | src/main/java/org/kingdari/MiniBase/MemStore.java:33-35 | on sorted records the seek position has every record before it below the target and every record from it on at or above it |
| SeekIters.SeekRest | src/main/java/org/kingdari/MiniBase/MemStore.java:33-35 | after seekTo the records still to come are exactly those at or above the target, still sorted |
| DiskStores.MultiIter.constructor | src/main/java/org/kingdari/MiniBase/DiskStore.java:170-179 | each non-null sub-iterator with a record puts its head in the queue; what is left to return is everything the sub-iterators had |
| DiskStores.MultiIter.SeekTo | src/main/java/org/kingdari/MiniBase/DiskStore.java:187-198 | the queue is rebuilt after every non-null sub-iterator seeks; what is left is what they have from the target on, all at or above it |
| DiskStores.SoughtAtLeast | src/main/java/org/kingdari/MiniBase/DiskStore.java:187-198 | after a seek every record still to come is at or above the target |
| DiskStores.SoughtComplete | src/main/java/org/kingdari/MiniBase/DiskStore.java:187-198 | after a seek every record of a sub-iterator at or above the target is still to come |
| DiskStores.MultiIter.HasNext | src/main/java/org/kingdari/MiniBase/DiskStore.java:201-203 | true exactly when the queue is non-empty, which is exactly when something is left to return |
| DiskStores.EmptyQueueMeansDone | src/main/java/org/kingdari/MiniBase/DiskStore.java:201-203 | with one queue entry per non-exhausted sub-iterator, the queue is empty exactly when nothing is left |
| DiskStores.LeastNode | src/main/java/org/kingdari/MiniBase/DiskStore.java:208 | the polled entry is a least one of the queue |
| DiskStores.MultiIter.Next | src/main/java/org/kingdari/MiniBase/DiskStore.java:206-217 | returns a record that is least among all records left and removes exactly it from what is left; null on an empty queue |
| DiskStores.PollKeeps | src/main/java/org/kingdari/MiniBase/DiskStore.java:206-217 | polling and re-queueing the source's next head keeps one entry per source and hands out exactly the polled record |
| DiskStores.LeastOfQueueIsLeast | src/main/java/org/kingdari/MiniBase/DiskStore.java:206-217 | the least queue entry is at or below every record still to come, queued or not, because each source is sorted |
| DiskStores.MultiIter.Close | src/main/java/org/kingdari/MiniBase/DiskStore.java:219-224 | closing fails exactly when some sub-iterator is null |
| DiskStores.DigitsRoundTrip | src/main/java/org/kingdari/MiniBase/DiskStore.java:321 | the decimal digits of a number read back as that number |
| DiskStores.DataFileNameRoundTrip | src/main/java/org/kingdari/MiniBase/DiskStore.java:320-322 | every id formats as twenty digits that the data-file pattern matches and that parse back to the id |
| DiskStores.ComputeMaxId | src/main/java/org/kingdari/MiniBase/DiskStore.java:258-268 | the loop computes the largest id of the listed data files, starting from 0 |
| DiskStores.MaxIdBounds | src/main/java/org/kingdari/MiniBase/DiskStore.java:258-268 | the largest id is a long at least 0 that bounds every listed file's id |
| DiskStores.NextNamesAreNew | src/main/java/org/kingdari/MiniBase/DiskStore.java:316-322 | after open, every id above the largest found names a file that is not in the directory yet |
| DiskStores.OpenFile | src/main/java/org/kingdari/MiniBase/DiskStore.java:274 | a fresh disk file of that name opens exactly when its contents pass open's checks, otherwise open's error |
| DiskStores.OpenAll | src/main/java/org/kingdari/MiniBase/DiskStore.java:271-279 | every listed file is opened in turn; the files opened before a failure stay added |
| DiskStores.DiskStore.constructor | src/main/java/org/kingdari/MiniBase/DiskStore.java:248-256 | no live or compacted files and no id counter yet |
| DiskStores.DiskStore.Open | src/main/java/org/kingdari/MiniBase/DiskStore.java:258-280 | the counter starts at the largest id found, then the data files are opened and appended in listing order |
| DiskStores.DiskStore.AddOpened | src/main/java/org/kingdari/MiniBase/DiskStore.java:271-279 | the listed files are opened in order and appended after the files already held; the opened ones and the result are the open specification's |
| DiskStores.DiskStore.NextDiskFileId | src/main/java/org/kingdari/MiniBase/DiskStore.java:316-318 | the counter is incremented and returned, wrapping as a long; null before open |
| DiskStores.WrapPastMax | src/main/java/org/kingdari/MiniBase/DiskStore.java:316-318 | incrementing Long.MAX_VALUE wraps to Long.MIN_VALUE |
| DiskStores.DiskStore.GetNextDiskFileName | src/main/java/org/kingdari/MiniBase/DiskStore.java:320-322 | the next id formatted as data.%020d inside the data directory |
| DiskStores.DiskStore.AddDiskFile | src/main/java/org/kingdari/MiniBase/DiskStore.java:324-331 | the file joins the live list at the end |
| DiskStores.DiskStore.GetDiskFilesSnapshot | src/main/java/org/kingdari/MiniBase/DiskStore.java:337-344 | a copy of the live list |
| DiskStores.DiskStore.CompactDown | src/main/java/org/kingdari/MiniBase/DiskStore.java:346-360 | the inputs leave the live list, the others keep their order, the output is appended, and the inputs join the compacted list |
| DiskStores.WithoutMember | src/main/java/org/kingdari/MiniBase/DiskStore.java:351 | a file survives removeAll exactly when no file of the same name is removed |
| DiskStores.WithoutAppend | src/main/java/org/kingdari/MiniBase/DiskStore.java:351 | removeAll keeps the order of what it leaves |
| DiskStores.DiskStore.TryClearCompactedDiskFiles | src/main/java/org/kingdari/MiniBase/DiskStore.java:362-382 | every compacted file with reference count 0 is closed, renamed and dropped; a failed rename throws and the list stays |
| DiskStores.CloseUnreferenced | src/main/java/org/kingdari/MiniBase/DiskStore.java:365-377 | the loop stops exactly when some unreferenced file fails to rename; otherwise it has closed every unreferenced file and collected exactly those, in order; no reference count changes |
| DiskStores.SweepKeepsReferenced | src/main/java/org/kingdari/MiniBase/DiskStore.java:362-382 | no unreferenced compacted file is left, and every referenced one whose name no unreferenced file shares stays |
| DiskStores.WriteRecords | src/main/java/org/kingdari/MiniBase/DiskStore.java:42-48 | a new writer takes every record, then the index and the trailer; the bytes are those of the written file |
| DiskStores.WriteAndOpen | src/main/java/org/kingdari/MiniBase/DiskStore.java:42-54 | the file opens exactly when writing succeeds, the rename succeeds and the written bytes pass open's checks |
| DiskStores.Flush | src/main/java/org/kingdari/MiniBase/DiskStore.java:38-61 | on success the next file name holds the written records and joins the live list at the end; on failure the live list is unchanged |
| DiskStores.Compactor.constructor | src/main/java/org/kingdari/MiniBase/DiskStore.java:69-74 | the compaction guard starts cleared |
| DiskStores.Compactor.PerformCompact | src/main/java/org/kingdari/MiniBase/DiskStore.java:76-108 | returns at once while the guard is set; otherwise writes the merged records, compacts the inputs down to the new file, and clears the guard on every exit after the file name is taken (before the store is opened, the name's null dereference leaves the guard set) |
| DiskFiles.ReadAt | src/main/java/org/kingdari/MiniBase/DiskFile.java:127-129 | a successful read returns exactly the requested number of bytes |
| DiskFiles.Read | src/main/java/org/kingdari/MiniBase/DiskFile.java:124-130 | a fresh buffer holding the bytes at the position, failing exactly as the read does |
| DiskFiles.ReadLong | src/main/java/org/kingdari/MiniBase/DiskFile.java:154-157 | the long decoded from the 8 bytes at the position |
| DiskFiles.ReadInt | src/main/java/org/kingdari/MiniBase/DiskFile.java:159-162 | the int decoded from the 4 bytes at the position |
| DiskFiles.WithTrailer | src/main/java/org/kingdari/MiniBase/DiskFile.java:158-172 | the trailer's block count, index offset and index size are recorded and nothing else changes |
| DiskFiles.DiskFileIterator.LoadCursor | src/main/java/org/kingdari/MiniBase/DiskFile.java:49-58 | the next block is loaded and the cursor holds its records visible at the filter's version, or the load error is returned |
| DiskFiles.DiskFileIterator.SeekCursor | src/main/java/org/kingdari/MiniBase/DiskFile.java:61-73 | the block is loaded and the cursor holds its visible records from the seek position of the target, or the load error is returned |
| BlockReaders.ReadRecord | src/main/java/org/kingdari/MiniBase/BlockReader.java:91-96 | the record parsed at the position, which lies inside the buffer |
| BlockReaders.TestsAsWritten | src/main/java/org/kingdari/MiniBase/BlockReader.java:43-44 | one outcome of seekTo's test per record of the block |
| BlockReaders.Tests | src/main/java/org/kingdari/MiniBase/BlockReader.java:39-51 | one outcome of the corrected, monotone test per record of the block |
| BlockReaders.SeekPos | src/main/java/org/kingdari/MiniBase/BlockReader.java:39-51 | the corrected seek position lies within the block |
| DiskFileWriters.DiskFileWriter.WriteBlock | src/main/java/org/kingdari/MiniBase/DiskFileWriter.java:69-71 | the current block's bytes are written to the output; its last record and byte size are returned |
| DiskFileWriters.DiskFileWriter.AddBlockMeta | src/main/java/org/kingdari/MiniBase/DiskFileWriter.java:72-79 | the block's index entry is appended, the offset grows by its size, the block count by one and a fresh block writer is started |
| DiskFileWriters.DiskFileWriter.AppendToBlock | src/main/java/org/kingdari/MiniBase/DiskFileWriter.java:96 | the record joins the current block and nothing else changes |
| DiskFileWriters.DiskFileWriter.WriteIndex | src/main/java/org/kingdari/MiniBase/DiskFileWriter.java:104-109 | the serialized index is written at the current offset, which is recorded as the index offset with its size |
| DiskFileWriters.IndexOf | src/main/java/org/kingdari/MiniBase/DiskFileWriter.java:104 | the index writer's bytes are the serialised index of its metas, or the error building it |
| SeekIters.LowerBound | src/main/java/org/kingdari/MiniBase/MemStore.java:33-35 | the first position whose record is not below the target lies within the records |
| DiskStores.SeekAll | src/main/java/org/kingdari/MiniBase/DiskStore.java:187-198 | every source is sought to the target |
| DiskStores.MultiIter.LoadHead | src/main/java/org/kingdari/MiniBase/DiskStore.java:174-177 | the next record of one source is taken into the queue |
| DiskStores.DataFiles | src/main/java/org/kingdari/MiniBase/DiskStore.java:258-268 | exactly the listed files whose names are data file names |
| MemStores.Insert | src/main/java/org/kingdari/MiniBase/MemStore.java:141 | put grows the map by one record, unless it replaces an equal one |
| MemStores.InsertSpec | src/main/java/org/kingdari/MiniBase/MemStore.java:141 | after put the values stay strictly sorted, the record is in, every other record stays exactly when it is not equal to it, and the replaced record is the equal one held before |
| MemStores.InsertSize | src/main/java/org/kingdari/MiniBase/MemStore.java:141-146 | the map's byte size after put is the old size plus the new record's minus the replaced record's |
| MemStores.MemStore.constructor | src/main/java/org/kingdari/MiniBase/MemStore.java:126-135 | empty active and immutable maps, size 0, no flush running |
| MemStores.MemStore.Put | src/main/java/org/kingdari/MiniBase/MemStore.java:140-146 | the record goes into the active map and dataSize moves by the size difference |
| MemStores.MemStore.Add | src/main/java/org/kingdari/MiniBase/MemStore.java:137-151 | the new state and result are those of add's specification: a forced flush check, the put, then a second flush check |
| MemStores.AddRejects | src/main/java/org/kingdari/MiniBase/MemStore.java:137-156 | add fails with "MemStore is full" exactly when over the limit while a flush runs, and then changes nothing |
| MemStores.AddKeeps | src/main/java/org/kingdari/MiniBase/MemStore.java:137-151 | add keeps the accounting and sortedness; afterwards the store holds the record and every record it held except those equal to it |
| MemStores.MemStore.FlushIfNeeded | src/main/java/org/kingdari/MiniBase/MemStore.java:153-178 | the new state and result are those of flushIfNeeded's specification; a submitted flusher task is reported |
| MemStores.FlushIfNeededKeeps | src/main/java/org/kingdari/MiniBase/MemStore.java:153-178 | the flush check keeps the invariant and loses no record |
| MemStores.MemStore.SwapUnderLock | src/main/java/org/kingdari/MiniBase/MemStore.java:159-174 | under the write lock: the double check releases the flag when the size is back under the limit, otherwise active becomes immutable and active and size reset |
| MemStores.SwapKeeps | src/main/java/org/kingdari/MiniBase/MemStore.java:159-174 | the swap keeps the invariant and the records, and leaves the flag set exactly when the size was over the limit |
| MemStores.MemStore.RunFlusherTask | src/main/java/org/kingdari/MiniBase/MemStore.java:86-107 | a successful attempt within the retry budget empties the immutable map and clears the flag; otherwise nothing changes |
| MemStores.FlushedKeeps | src/main/java/org/kingdari/MiniBase/MemStore.java:86-107 | the flusher task keeps the invariant; on success only the active map's records are left |
| MemStores.BlockingPutScenario | src/main/java/org/kingdari/MiniBase/MemStore.java:137-178 | at a 26-byte limit with 25-byte records the second put swaps, the fifth is rejected while flushing with 50 bytes active, and after the flush a retry leaves only it, at 25 bytes |
| MemStores.MemStore.GetMemStoreMaps | src/main/java/org/kingdari/MiniBase/MemStore.java:188-195 | the active map, then the immutable one |
| MemStores.MemStore.CreateIterator | src/main/java/org/kingdari/MiniBase/MemStore.java:197-199 | a merge of one wrapper per map whose records still to come are all records of both maps |
| MStores.KeyLeqTransitive | src/main/java/org/kingdari/MiniBase/MStore.java:37-40 | the stop test's key order is transitive, strictly when either step is strict |
| MStores.SortedKeys | src/main/java/org/kingdari/MiniBase/MStore.java:42-76 | records in KeyValue order have non-decreasing keys |
| MStores.ResolveSound | src/main/java/org/kingdari/MiniBase/MStore.java:42-94 | every record a scan yields is a Put that is the first record of its key and comes before the stop key |
| MStores.ResolveComplete | src/main/java/org/kingdari/MiniBase/MStore.java:42-94 | every Put that is the first record of its key before the stop key is yielded |
| MStores.DeleteHidesKey | src/main/java/org/kingdari/MiniBase/MStore.java:65-71 | when a key's newest record is a Delete, no record of that key is yielded |
| MStores.FirstIsUnique | src/main/java/org/kingdari/MiniBase/MStore.java:57-64 | each key has at most one first record, so at most one version is yielded |
| MStores.ResolveAbove | src/main/java/org/kingdari/MiniBase/MStore.java:57-71 | everything yielded after a key has a greater key |
| MStores.ResolveIncreasing | src/main/java/org/kingdari/MiniBase/MStore.java:42-94 | a scan yields strictly increasing keys |
| MStores.SwitchLoop | src/main/java/org/kingdari/MiniBase/MStore.java:47-75 | the loop only moves forward; when it sets a pending record, that record is the one just read and becomes lastKv |
| MStores.Switch | src/main/java/org/kingdari/MiniBase/MStore.java:42-76 | switchToNewKey only moves forward and a pending record is also lastKv |
| MStores.LoopResolves | src/main/java/org/kingdari/MiniBase/MStore.java:47-75 | the loop's pending record is the first record of the resolved output from where it started, and the rest resolves to the rest of the output |
| MStores.SwitchResolves | src/main/java/org/kingdari/MiniBase/MStore.java:42-76 | the same for switchToNewKey, including its early return once lastKv is at the stop key |
| MStores.ScanIter.constructor | src/main/java/org/kingdari/MiniBase/MStore.java:30-35 | no lastKv and no pending record; over sorted records its output is their resolution |
| MStores.ScanIter.SwitchToNewKey | src/main/java/org/kingdari/MiniBase/MStore.java:42-76 | the new position, lastKv and pending record are those of switchToNewKey's loop |
| MStores.ScanIter.HasNext | src/main/java/org/kingdari/MiniBase/MStore.java:79-84 | true exactly when a record is pending, which is when output remains; the output is unchanged |
| MStores.ScanIter.Next | src/main/java/org/kingdari/MiniBase/MStore.java:87-94 | returns the first record of the remaining output and removes it, or null at the end |
| MStores.EmptyMeansUnbounded | src/main/java/org/kingdari/MiniBase/MStore.java:213-221 | compare against the empty array is non-zero exactly for a non-empty bound |
| MStores.GetSeesNewestVisible | src/main/java/org/kingdari/MiniBase/MStore.java:145-166 | a point read returns the newest version of the key at or below the global sequence id when it is a Put, and nothing when it is a Delete or when no version is visible |
| MStores.ResolveIncreasingFrom | src/main/java/org/kingdari/MiniBase/MStore.java:65-71 | after a leading Delete every yielded key is greater than its key |
| MStores.SoughtSorted | src/main/java/org/kingdari/MiniBase/MStore.java:211-216 | the records after the seek are still in key order |
| MStores.MStore.constructor | src/main/java/org/kingdari/MiniBase/MStore.java:132 | the global sequence id starts at 0 |
| MStores.MStore.Scan | src/main/java/org/kingdari/MiniBase/MStore.java:204-223 | fails only when the seek record cannot be built; otherwise a fresh ScanIter over the records from the seek target, stopping at the Delete of the end key at Long.MAX_VALUE |
| MStores.MStore.ScanGet | src/main/java/org/kingdari/MiniBase/MStore.java:145-166 | a point read returns the first scanned record when its key is the requested key, else null |
| MStores.MStore.UpdateGlobalVersionAsWritten | src/main/java/org/kingdari/MiniBase/MStore.java:168-177 | result and new counter are those of the loop as written, which retries while the compare-and-set succeeds, with other threads' writes between each read and its compare-and-set |
| MStores.MStore.Interfere | src/main/java/org/kingdari/MiniBase/MStore.java:115 | another thread's write to the counter |
| MStores.MStore.UpdateGlobalVersion | src/main/java/org/kingdari/MiniBase/MStore.java:168-177 | result and new counter are those of the loop that retries while the compare-and-set fails |
| MStores.IntendedPublishes | src/main/java/org/kingdari/MiniBase/MStore.java:168-177 | the corrected loop returns the new counter, which is at least the requested version and the old counter, and is their maximum without interference |
| MStores.AsWrittenUncontended | src/main/java/org/kingdari/MiniBase/MStore.java:168-177 | the loop as written agrees with the corrected one when no other thread writes a greater value first |
| MStores.AsWrittenLosesUpdate | src/main/java/org/kingdari/MiniBase/MStore.java:168-177 | from counter 5, publishing 10 while another thread publishes 7, the loop as written returns 10 but leaves 7 |
| WriteLogWals.EntryRecord | src/main/java/org/kingdari/MiniBase/WriteLogWal.java:27-34 | the record setSeq builds: the entry's op, key and sequence id, the value for a Put and the empty value for a Delete; it fails exactly when the sequence id is below -1 |
| WriteLogWals.EntryReadsBack | src/main/java/org/kingdari/MiniBase/WriteLogWal.java:60-68 | the bytes an entry writes to the log have its serialized size and parse back to its record |
| WriteLogWals.WriteLogWal.constructor | src/main/java/org/kingdari/MiniBase/WriteLogWal.java:20-25 | key, value and op are stored, no record yet, waiting |
| WriteLogWals.WriteLogWal.SetSeq | src/main/java/org/kingdari/MiniBase/WriteLogWal.java:27-34 | the id is recorded and the record becomes the entry's record at that id; a failing record constructor leaves the old record |
| WriteLogWals.WriteLogWal.ToReadLogWal | src/main/java/org/kingdari/MiniBase/WriteLogWal.java:40-42 | the record set by setSeq |
| WriteLogWals.WriteLogWal.GetSerializedSize | src/main/java/org/kingdari/MiniBase/WriteLogWal.java:60-63 | the record's serialized size, or a NullPointerException before setSeq |
| WriteLogWals.WriteLogWal.ToBytes | src/main/java/org/kingdari/MiniBase/WriteLogWal.java:65-68 | the record's serialized bytes, of its serialized size, or a NullPointerException before setSeq |
| WriteLogWals.WriteLogWal.LogNotify | src/main/java/org/kingdari/MiniBase/WriteLogWal.java:44-58 | waiting is cleared, which releases logJoin, and nothing else changes |
| WriteLogWals.CreatePutWal | src/main/java/org/kingdari/MiniBase/WriteLogWal.java:5-7 | a waiting Put entry for the key and value |
| WriteLogWals.CreateDeleteWal | src/main/java/org/kingdari/MiniBase/WriteLogWal.java:9-11 | a waiting Delete entry for the key with the empty value |
| BaseLogs.NewWriterValid | src/main/java/org/kingdari/MiniBase/BaseLog.java:175-186 | a new writer has an empty file and buffer and satisfies the accounting invariant |
| BaseLogs.LogWriter.constructor | src/main/java/org/kingdari/MiniBase/BaseLog.java:175-186 | the buffer capacity is bufferSize, the file is empty and open, size and currPos are 0 |
| BaseLogs.LogWriter.Sync | src/main/java/org/kingdari/MiniBase/BaseLog.java:199-220 | the new state is sync's: no change once closed, else the buffered bytes go to the file, currPos grows by their number as an int and the buffer empties |
| BaseLogs.SyncKeeps | src/main/java/org/kingdari/MiniBase/BaseLog.java:199-220 | sync keeps the accounting invariant, loses no logged byte, leaves size alone, and on an open channel moves every logged byte to the file |
| BaseLogs.LogWriter.Append | src/main/java/org/kingdari/MiniBase/BaseLog.java:188-197 | the new state and result are append's: nothing once closed, a sync first when size plus the entry exceeds the buffer, size grows by the entry, and a buffer overflow when the bytes do not fit |
| BaseLogs.AppendKeeps | src/main/java/org/kingdari/MiniBase/BaseLog.java:188-197 | a successful append keeps the invariant and adds exactly the entry's serialized bytes to what is logged, or changes nothing once closed |
| BaseLogs.AppendFits | src/main/java/org/kingdari/MiniBase/BaseLog.java:188-197 | before the counters wrap, append fails exactly when the channel is open and the entry is larger than the buffer |
| BaseLogs.AppendSyncsOnceFull | src/main/java/org/kingdari/MiniBase/BaseLog.java:192-194 | when the entry would take size past the buffer size, everything logged before it is synced to the file first; otherwise the file is untouched |
| BaseLogs.LogWriter.Close | src/main/java/org/kingdari/MiniBase/BaseLog.java:223-226 | a last sync, then the channel is closed |
| BaseLogs.ReadWindow | src/main/java/org/kingdari/MiniBase/BaseLog.java:136-143 | the bytes read have the requested length; an empty read succeeds wherever it is placed |
| BaseLogs.ParseLogUnfold | src/main/java/org/kingdari/MiniBase/BaseLog.java:145-152 | one turn of the read loop: a failing record ends it with its error, one running past the window fails the assertion, otherwise the record is kept and parsing resumes after it |
| BaseLogs.Read | src/main/java/org/kingdari/MiniBase/BaseLog.java:136-154 | read returns what the window and its back-to-back records give |
| BaseLogs.ReadRecords | src/main/java/org/kingdari/MiniBase/BaseLog.java:145-153 | the loop returns the records parsed back to back until exactly len bytes are consumed, or the first error |
| BaseLogs.ParseLogEach | src/main/java/org/kingdari/MiniBase/BaseLog.java:145-153 | records that each parse at their own offset are read back in order over exactly their total size |
| BaseLogs.ParseLogParsesEach | src/main/java/org/kingdari/MiniBase/BaseLog.java:145-153 | conversely, a successful read parses each record at its offset and the window is exactly their total size |
| BaseLogs.ParseLogRecords | src/main/java/org/kingdari/MiniBase/BaseLog.java:145-153 | the serialized records at a position of a buffer read back as those records |
| BaseLogs.ParsedLogIsRecords | src/main/java/org/kingdari/MiniBase/BaseLog.java:145-153 | the bytes of a successful read are exactly the serialization of the records it returns |
| BaseLogs.ReadRoundTrip | src/main/java/org/kingdari/MiniBase/BaseLog.java:136-154 | reading the window of a file where some records were written returns exactly those records |
| BaseLogs.LogReadIsRecords | src/main/java/org/kingdari/MiniBase/BaseLog.java:136-154 | a successful read of length 0 returns no records, and a longer one lies within the file and its bytes are exactly the serialized records it returns |
| BaseLogs.NumberedAll | src/main/java/org/kingdari/MiniBase/BaseLog.java:87-89 | one record per queued entry |
| BaseLogs.NumberedAt | src/main/java/org/kingdari/MiniBase/BaseLog.java:87-89 | the i-th entry consumed gets sequence id start + i + 1 |
| BaseLogs.AppendOk | src/main/java/org/kingdari/MiniBase/BaseLog.java:188-197 | an entry no larger than the buffer appends successfully and logs its bytes |
| BaseLogs.AppendSyncOk | src/main/java/org/kingdari/MiniBase/BaseLog.java:96-98 | append then sync of such an entry leaves it in the file with an empty buffer |
| BaseLogs.NumberedRecord | src/main/java/org/kingdari/MiniBase/BaseLog.java:87-88 | the consumer gives each entry the previous sequence id plus 1 and routes the record built from it |
| BaseLogs.RouteKeeps | src/main/java/org/kingdari/MiniBase/BaseLog.java:91-99 | routing a record extends what the level promises: SKIP and ASYNC add it to the read queue, ASYNC, SYNC and FSYNC add its bytes to the log |
| BaseLogs.RouteKeepsSynced | src/main/java/org/kingdari/MiniBase/BaseLog.java:96-98 | under SYNC and FSYNC the record is logged and synced, and the read queue is untouched |
| BaseLogs.StepRoutes | src/main/java/org/kingdari/MiniBase/BaseLog.java:84-99 | the consumer's step for one more entry keeps the routing summary, with the entry's record appended |
| BaseLogs.ConsumeOneMore | src/main/java/org/kingdari/MiniBase/BaseLog.java:82-107 | consuming one more entry keeps the routing summary |
| BaseLogs.ConsumeAllRoutes | src/main/java/org/kingdari/MiniBase/BaseLog.java:82-107 | entries that fit the buffer are all consumed, numbered consecutively, queued for reading or logged as their level says |
| BaseLogs.SyncedLogReadsBack | src/main/java/org/kingdari/MiniBase/BaseLog.java:81-154 | under SYNC and FSYNC, after consuming entries from a fresh log the file holds exactly their records, currPos is its length, and reading it back gives the records numbered 1, 2, 3, ... |
| BaseLogs.BaseLog.constructor | src/main/java/org/kingdari/MiniBase/BaseLog.java:242-260 | sequence id 0, empty read queue and entry map, a fresh writer with the configured buffer size |
| BaseLogs.BaseLog.ConsumeWal | src/main/java/org/kingdari/MiniBase/BaseLog.java:84-99 | the new state is the consumer's step: the next sequence id is set on the entry, the entry is remembered by it, and the record is routed by the WAL level; when setSeq fails, the map and the entry's record are unchanged |
| BaseLogs.BaseLog.ConsumeSync | src/main/java/org/kingdari/MiniBase/BaseLog.java:101-103 | a LogSync entry syncs the writer |
| BaseLogs.BaseLog.NotifyLogEntry | src/main/java/org/kingdari/MiniBase/BaseLog.java:262-266 | the entry with that id is released, keeps its id and record, and is forgotten; an unknown id is a null dereference; only that entry and the map may change |

## Findings

| source | as written | input that shows it | evidently intended | confidence | as-written member | corrected member |
|---|---|---|---|---|---|---|
| src/main/java/org/kingdari/MiniBase/BlockMeta.java:108-112 | `BlockMeta.hashCode` (and through it `BlockId.hashCode`) hashes `lastKv`, whose `hashCode` is the identity hash, while `equals` compares `lastKv` by contents | two field-wise equal seek dummies whose last records are distinct objects (identity hashes 0 and 1) are equal but hash differently, so the block cache's hash map can miss a cached block | a hash over the record's key, sequence id and op, which agrees with `equals` | not executed | BlockIds.HashAsWrittenBreaksEquals | BlockIds.HashRespectsEquals |
| src/main/java/org/kingdari/MiniBase/BlockReader.java:39-51 | `seekTo` binary-searches with the test "visible and at or after the target", which is not monotone along a block that holds invisible records | block [([2], seq 1), ([3], seq 9), ([4], seq 1)] read at snapshot 5, target ([1], seq 0): the search ends at index 2, and the visible ([2], 1) at or after the target is skipped | search on "at or after the target" alone, then skip invisible records as `hasNext` does | not executed | BlockReaders.SeekAsWrittenSkipsVisible | BlockReaders.SeekYieldsAtLeast |
| src/main/java/org/kingdari/MiniBase/MStore.java:168-177 | `updateGlobalVersion` loops `while (compareAndSet(now, seq))`, so it retries after a successful CAS and stops after a failed one | counter 5, the caller publishing 10 reads 5, then another thread publishes 7 before the caller's CAS: the CAS fails and ends the loop, so the caller returns 10 and the counter is left at 7 | loop while the CAS fails, so the counter ends at the maximum and never falls below a published version | not executed | MStores.AsWrittenLosesUpdate | MStores.IntendedPublishes |
| src/main/java/org/kingdari/MiniBase/BlockCache.java:17-20 | `put` adds the new reader's memory size to `nowSize` even when it replaces a cached entry, without subtracting the old size | a cache holding one entry of size s, put again under the same key: one entry, `nowSize` = 2s (unreachable through `get`, which puts only on a miss) | subtract the replaced entry's size so `nowSize` is the sum of the cached sizes | not executed | BlockCaches.ReplaceAsWrittenOvercounts | BlockCaches.ReplaceAccounted |

The model uses the corrected behaviour:

- The block cache finds entries by `BlockIdEquals`.
- `DataBlockIterator.SeekTo` uses the monotone search.
- `MStore.UpdateGlobalVersion` loops while the CAS fails.
- `BlockCache.Put` replaces an entry with its size difference.

## Left out

- Threads, queues, locks, `wait`/`notify` and the executor pool are not modelled as concurrency. Each of the following is a sequential step on fields:
  - the log writer's consumer loop;
  - the memstore's swap under the write lock;
  - the flusher task;
  - the compaction guard;
  - a CAS.
- `logJoin`'s blocking wait is modelled only as the `Released` predicate it waits for.
- `BaseLog.write`, `put`, `delete`, `sync`, `close` and `getReadQueue` only enqueue or signal. `ReadQueueProducer` is the tail-reader loop, and only its `read` call is modelled (`BaseLogs.Read`). `LogConsumer` is a retry/backoff thread.
- `WriteLogWal.getSeq` is the `seqId` field.
- File-system I/O is not modelled:
  - file contents are byte sequences;
  - `RandomAccessFile` is a handle over those bytes;
  - a rename's outcome is a boolean parameter;
  - a directory listing is a list of (name, bytes) pairs;
  - `mkdirs`, `delete` and closing channels are left out;
  - `channel.force` is I/O, so FSYNC behaves as SYNC.
- The partial-write loop in `LogWriter.sync` is one write of the whole buffer, since `FileChannel.write` is I/O.
- BaseLogs.LogWriter.constructor requires `bufferSize >= 0`. Java's `ByteBuffer.allocateDirect` throws on a negative size, and that error is not modelled.
- BaseLogs.ConsumeAllRoutes, BaseLogs.SyncedLogReadsBack: the 32-bit `size` and `currPos` counters and the 64-bit sequence id are assumed not to wrap. The single steps model the wrap-around.
- `DiskFile.loadReader` through the block cache is not modelled. The file iterator reads each block directly, as it does without a cache. The cache itself is modelled on its own.
- `DiskFile.hashCode`, `BlockReader.hashCode` and `KeyValue.hashCode` are left out. They are identity-based or unused, and the hash the cache needs is modelled in `BlockIds`.
- `DiskFileWriter.close` only flushes and syncs the stream, which is I/O.
- `DiskStore.close`, `DiskStore.createIterator`, `DefaultCompactor.compact`, `run` and `stopRunning` are left out, as are the memstore flusher's thread pool and retry sleep.
  - The merge iterator's sub-iterators are abstract cursors over their records.
  - The flusher's retry budget is a parameter.
- CRC-32 is defined bit by bit (reflected polynomial 0xEDB88320) rather than left uninterpreted. Its table-driven library implementation is not modelled.
- `BloomFilter.generate` being deterministic needs no lemma: the model is a function.
- BloomFilters.NoFalseNegatives, Blocks.WriterFilterHasKeys and KeyValueFilters.NeverPrunesWrittenKey hold for filters of at most 2^30 bits (2^28 keys). Past that, Java's index sum can wrap, and `WrappedProbeMisses` shows a key the filter then rules out. A block under the 2 MiB limit holds far fewer keys.
- DiskFileWriters.DiskFileWriter.Append and DiskFileWriters.AppendFits compute the assertion's sum exactly. Java adds in int, so a record of serialized size above 2^31 - 9 passes its assertion and goes into a block whose int size then wraps. The model fails such a record with `AssertionFailed` instead. `RecordFitsAsJava` states exactly which records these are.
- Blocks.BlockWriter.Serialize requires the block's size to fit in an int. That holds at every call site, since blocks stay under 2 MiB. The `new byte[size()]` with a wrapped size is not modelled.
- MStores.MStore.UpdateGlobalVersionAsWritten models another thread's write only between a round's read and its compare-and-set. A write that lands after a successful compare-and-set is then read back and returned instead of the caller's version, and that case is not modelled.
- Configuration getters, `toString` and logging are left out.
- `MiniBase`, `Store` and `MLog` are interfaces, and `Region` and `RegionServer` are stubs, so they are left out. `LogWal` is an unused duplicate. `ReadLogWal` only wraps `KeyValue.parseFrom`, which is modelled.
- `MStore.open`, `put`, `delete`, `get` and `close` only wire components together or call them.
  - `scan` is modelled over the merged records the multi-iterator yields.
  - `bfGet` differs from `scanGet` only in pruning blocks by Bloom filter. That pruning never drops a written key of a block under the size limit (`KeyValueFilters.NeverPrunesWrittenKey`), so both are `ScanGet`.
