/**
 * The read filter: an optional key range, an optional point key for block
 * pruning, and a snapshot version that decides which records are visible.
 */
module KeyValueFilters {
  import opened Wrappers
  import opened ByteUtils
  import opened KeyValues
  import opened BloomFilters
  import opened BlockMetas

  /**
   * The `key` field: null, the shared `EMPTY_BYTES` array (recognised by
   * reference), or any other array, an empty one included.
   */
  datatype KeyRef = Null | EmptyBytes | Bytes(s: seq<Byte>)

  /** Whether `getFilteredMeta` keeps `m` for a non-null key; `mayContains` may fail. */
  function KeepMeta(key: KeyRef, m: BlockMeta): Result<bool>
    requires key != Null
  {
    if key == EmptyBytes then Ok(true)
    else MayContain(m.bfBytes, 8 * |m.bfBytes|, BLOOM_FILTER_HASH_COUNT, key.s)
  }

  /** The loop of `getFilteredMeta` over `metas`, in iteration order; the first failure ends it. */
  function FilterMetas(key: KeyRef, metas: seq<BlockMeta>): Result<seq<BlockMeta>>
    requires key != Null
  {
    if metas == [] then Ok([])
    else
      var kept :- FilterMetas(key, metas[..|metas| - 1]);
      var keep :- KeepMeta(key, metas[|metas| - 1]);
      Ok(if keep then kept + [metas[|metas| - 1]] else kept)
  }

  /** `getFilteredMeta(df)` over the file's sorted meta set `metas`. */
  function FilteredMeta(key: KeyRef, metas: seq<BlockMeta>): Result<seq<BlockMeta>>
  {
    if key == Null then Ok(metas) else FilterMetas(key, metas)
  }

  /** A failure in the loop ends `getFilteredMeta` with that failure. */
  lemma {:induction false} FilterErrorStays(key: KeyRef, metas: seq<BlockMeta>, i: nat)
    requires key != Null && i <= |metas| && FilterMetas(key, metas[..i]).Err?
    ensures FilterMetas(key, metas) == FilterMetas(key, metas[..i])
    decreases |metas| - i
  {
    if i < |metas| {
      assert metas[..i + 1][..i] == metas[..i];
      FilterErrorStays(key, metas, i + 1);
    } else {
      assert metas[..i] == metas;
    }
  }

  /** The kept metas are exactly the ones the bloom test keeps, in their original order. */
  lemma {:induction false} FilterMetasMeans(key: KeyRef, metas: seq<BlockMeta>)
    requires key != Null && FilterMetas(key, metas).Ok?
    ensures forall m :: m in metas ==> KeepMeta(key, m).Ok?
    ensures forall m :: m in FilterMetas(key, metas).value <==> m in metas && KeepMeta(key, m) == Ok(true)
    ensures IsSubsequence(FilterMetas(key, metas).value, metas)
  {
    if metas != [] {
      var init := metas[..|metas| - 1];
      var last := metas[|metas| - 1];
      FilterMetasMeans(key, init);
      InitLast(metas);
      var kept := FilterMetas(key, init).value;
      if KeepMeta(key, last) == Ok(true) {
        SubsequenceSnoc(kept, init, last);
      } else {
        SubsequenceExtend(kept, init, last);
      }
    }
  }

  /** `a` is `b` with some elements left out. */
  ghost predicate IsSubsequence(a: seq<BlockMeta>, b: seq<BlockMeta>)
  {
    exists idx: seq<int> :: |idx| == |a| &&
      (forall i :: 0 <= i < |idx| ==> 0 <= idx[i] < |b| && a[i] == b[idx[i]]) &&
      (forall i, j :: 0 <= i < j < |idx| ==> idx[i] < idx[j])
  }

  lemma {:induction false} SubsequenceSnoc(a: seq<BlockMeta>, b: seq<BlockMeta>, x: BlockMeta)
    requires IsSubsequence(a, b)
    ensures IsSubsequence(a + [x], b + [x])
  {
    var idx: seq<int> :| |idx| == |a| &&
      (forall i :: 0 <= i < |idx| ==> 0 <= idx[i] < |b| && a[i] == b[idx[i]]) &&
      (forall i, j :: 0 <= i < j < |idx| ==> idx[i] < idx[j]);
    var idx' := idx + [|b|];
    assert forall i :: 0 <= i < |idx'| ==> 0 <= idx'[i] < |b + [x]| && (a + [x])[i] == (b + [x])[idx'[i]];
  }

  lemma {:induction false} SubsequenceExtend(a: seq<BlockMeta>, b: seq<BlockMeta>, x: BlockMeta)
    requires IsSubsequence(a, b)
    ensures IsSubsequence(a, b + [x])
  {
    var idx: seq<int> :| |idx| == |a| &&
      (forall i :: 0 <= i < |idx| ==> 0 <= idx[i] < |b| && a[i] == b[idx[i]]) &&
      (forall i, j :: 0 <= i < j < |idx| ==> idx[i] < idx[j]);
    assert forall i :: 0 <= i < |idx| ==> 0 <= idx[i] < |b + [x]| && a[i] == (b + [x])[idx[i]];
  }

  /** The index order of a meta set: strictly ascending last records. */
  predicate MetasSorted(metas: seq<BlockMeta>)
  {
    forall i, j :: 0 <= i < j < |metas| ==> MetaCompare(metas[i], metas[j]) < 0
  }

  /** Leaving metas out of a sorted set keeps it sorted, so the result is a valid sorted set. */
  lemma {:induction false} SubsequenceSorted(a: seq<BlockMeta>, b: seq<BlockMeta>)
    requires IsSubsequence(a, b) && MetasSorted(b)
    ensures MetasSorted(a)
  {
    var idx: seq<int> :| |idx| == |a| &&
      (forall i :: 0 <= i < |idx| ==> 0 <= idx[i] < |b| && a[i] == b[idx[i]]) &&
      (forall i, j :: 0 <= i < j < |idx| ==> idx[i] < idx[j]);
    forall i, j | 0 <= i < j < |a|
      ensures MetaCompare(a[i], a[j]) < 0
    {
      assert idx[i] < idx[j];
    }
  }

  /** The result of `getFilteredMeta` on a sorted meta set is a sorted subset of it. */
  lemma {:induction false} FilteredMetaSorted(key: KeyRef, metas: seq<BlockMeta>)
    requires MetasSorted(metas) && FilteredMeta(key, metas).Ok?
    ensures MetasSorted(FilteredMeta(key, metas).value)
    ensures forall m :: m in FilteredMeta(key, metas).value ==> m in metas
  {
    if key != Null {
      FilterMetasMeans(key, metas);
      SubsequenceSorted(FilterMetas(key, metas).value, metas);
    }
  }

  /**
   * A block whose filter was generated over keys including `key` is never
   * pruned: the bloom test on its bytes answers true.  This holds for any
   * block of up to 2^28 keys (see `BloomFilters.WrappedProbeMisses` beyond).
   */
  lemma {:induction false} NeverPrunesWrittenKey(m: BlockMeta, keys: seq<seq<Byte>>, key: seq<Byte>)
    requires |keys| <= 0x1000_0000
    requires GenerateBits(BLOOM_FILTER_HASH_COUNT, BLOOM_FILTER_HASH_COUNT, keys).Ok?
    requires m.bfBytes == GenerateBits(BLOOM_FILTER_HASH_COUNT, BLOOM_FILTER_HASH_COUNT, keys).value.1
    requires key in keys
    ensures KeepMeta(Bytes(key), m) == Ok(true)
  {
    BlockFilterFits(|keys|);
    NoFalseNegatives(BLOOM_FILTER_HASH_COUNT, BLOOM_FILTER_HASH_COUNT, keys, key);
  }

  /** One iteration of `getFilteredMeta`: `setResult` with the meta's bytes, then the key test. */
  method TestMeta(bf: BloomFilter, key: KeyRef, m: BlockMeta) returns (r: Result<bool>)
    requires key != Null && bf.k == BLOOM_FILTER_HASH_COUNT
    modifies bf
    ensures bf.k == old(bf.k)
    ensures r == KeepMeta(key, m)
  {
    var bytes := new Byte[|m.bfBytes|](j requires 0 <= j < |m.bfBytes| => m.bfBytes[j]);
    bf.SetResult(bytes);
    assert bf.Bytes() == m.bfBytes;
    if key == EmptyBytes {
      return Ok(true);
    }
    r := bf.MayContains(key.s);
  }

  class KeyValueFilter {
    var start: seq<Byte>
    var end: seq<Byte>
    var key: KeyRef
    var version: int

    /** A fresh filter: empty range, no key, every version visible. */
    constructor()
      ensures start == [] && end == [] && key == Null && version == INT64_MAX
    {
      start := [];
      end := [];
      key := Null;
      version := INT64_MAX;
    }

    /** `isVisible(kv)`: records no newer than the snapshot version. */
    predicate IsVisible(kv: KeyValue)
      reads this
    {
      version >= kv.sequenceId
    }

    /** `setRange(start, end)`, returning the filter itself. */
    method SetRange(s: seq<Byte>, e: seq<Byte>) returns (self: KeyValueFilter)
      modifies this
      ensures self == this
      ensures start == s && end == e && key == old(key) && version == old(version)
    {
      start := s;
      end := e;
      self := this;
    }

    /** `setVersionIfAbsent(v)`: only a filter still at `Long.MAX_VALUE` takes the version. */
    method SetVersionIfAbsent(v: int) returns (self: KeyValueFilter)
      modifies this
      ensures self == this
      ensures version == (if old(version) == INT64_MAX then v else old(version))
      ensures start == old(start) && end == old(end) && key == old(key)
    {
      version := if version == INT64_MAX then v else version;
      self := this;
    }

    /** `setVersion(v)`. */
    method SetVersion(v: int) returns (self: KeyValueFilter)
      modifies this
      ensures self == this
      ensures version == v && start == old(start) && end == old(end) && key == old(key)
    {
      version := v;
      self := this;
    }

    /** `setKey(k)`. */
    method SetKey(k: KeyRef) returns (self: KeyValueFilter)
      modifies this
      ensures self == this
      ensures key == k && start == old(start) && end == old(end) && version == old(version)
    {
      key := k;
      self := this;
    }

    /**
     * `getFilteredMeta(df)`, given the file's meta set: with no key the set
     * itself, otherwise the metas the key may be in, through one reused
     * `BloomFilter(3, 10)` whose bytes are reset for every meta.
     */
    method GetFilteredMeta(metas: seq<BlockMeta>) returns (r: Result<seq<BlockMeta>>)
      ensures r == FilteredMeta(key, metas)
    {
      if key == Null {
        return Ok(metas);
      }
      var ret: seq<BlockMeta> := [];
      var bf := new BloomFilter(BLOOM_FILTER_HASH_COUNT, BLOOM_FILTER_BITS_PER_KEY);
      for i := 0 to |metas|
        invariant fresh(bf) && bf.k == BLOOM_FILTER_HASH_COUNT
        invariant FilterMetas(key, metas[..i]) == Ok(ret)
      {
        assert metas[..i + 1][..i] == metas[..i];
        var blockMeta := metas[i];
        var keep := TestMeta(bf, key, blockMeta);
        if keep.Err? {
          FilterErrorStays(key, metas, i + 1);
          return Err(keep.error);
        }
        if keep.value {
          ret := ret + [blockMeta];
        }
      }
      assert metas[..|metas|] == metas;
      r := Ok(ret);
    }
  }
}
