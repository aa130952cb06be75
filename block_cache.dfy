/**
 * `BlockCache`: the readers of recently used blocks, kept in an
 * access-ordered hash map whose `put` adds the reader's memory size to a
 * running `nowSize`, and whose eldest-entry hook, consulted after each new
 * insertion, drops the least recently used entry while `nowSize` exceeds the
 * capacity.  A miss in `get` loads the block from its disk file.
 */
module BlockCaches {
  import opened Wrappers
  import opened BlockIds
  import opened BlockReaders

  /** One mapping of the cache: the key, the reader, and the reader's memory size when it was put. */
  datatype Entry = Entry(id: BlockId, reader: BlockReader, size: int)

  /** The cache's contents in access order, least recently used first, with its `nowSize` counter. */
  datatype Lru = Lru(entries: seq<Entry>, nowSize: int)

  /** The memory sizes of the entries, added up. */
  function SizeSum(es: seq<Entry>): int
  {
    if es == [] then 0 else SizeSum(es[..|es| - 1]) + es[|es| - 1].size
  }

  /** No two keys of the map are `equals`. */
  predicate DistinctIds(es: seq<Entry>)
  {
    forall i, j | 0 <= i < |es| && 0 <= j < |es| && i != j :: !BlockIdEquals(es[i].id, es[j].id)
  }

  /** The accounting the cache relies on: `nowSize` is the size of what is cached, and keys are unique. */
  predicate Accounted(s: Lru)
  {
    s.nowSize == SizeSum(s.entries) && DistinctIds(s.entries)
  }

  /** Where the map holds a key `equals` to `id`: the first such index, or -1. */
  function Find(es: seq<Entry>, id: BlockId): (r: int)
    ensures -1 <= r < |es|
    ensures r >= 0 ==> BlockIdEquals(es[r].id, id)
    ensures forall i | 0 <= i < |es| && (r < 0 || i < r) :: !BlockIdEquals(es[i].id, id)
  {
    if es == [] then -1
    else if BlockIdEquals(es[0].id, id) then 0
    else
      var k := Find(es[1..], id);
      if k < 0 then -1 else k + 1
  }

  /** An access moves the entry at `i` to the most recently used end; the others keep their order. */
  function Touch(es: seq<Entry>, i: int): seq<Entry>
    requires 0 <= i < |es|
  {
    es[..i] + es[i + 1..] + [es[i]]
  }

  /**
   * `put` of a key the map does not hold: the size is added, the entry
   * appended as most recently used, and then, if `nowSize` exceeds the
   * capacity, the eldest entry (the new one itself when it is alone) is
   * removed and its size subtracted.
   */
  function AddNew(s: Lru, e: Entry, capacity: int): Lru
  {
    var es := s.entries + [e];
    var now := s.nowSize + e.size;
    if now > capacity then Lru(es[1..], now - es[0].size) else Lru(es, now)
  }

  /**
   * `put` of a key the map holds at `i`, as written: the new size is added
   * but the replaced reader's is not subtracted; the map keeps its key,
   * takes the new reader and moves the entry to the most recently used end,
   * and consults no eviction.
   */
  function ReplaceAsWritten(s: Lru, i: int, reader: BlockReader, size: int): Lru
    requires 0 <= i < |s.entries|
  {
    var es := s.entries;
    Lru(es[..i] + es[i + 1..] + [Entry(es[i].id, reader, size)], s.nowSize + size)
  }

  /** `put` of a key the map holds at `i`, with the replaced reader's size taken back out. */
  function Replace(s: Lru, i: int, reader: BlockReader, size: int): Lru
    requires 0 <= i < |s.entries|
  {
    var es := s.entries;
    Lru(es[..i] + es[i + 1..] + [Entry(es[i].id, reader, size)], s.nowSize + size - es[i].size)
  }

  // ---------------------------------------------------------------------------
  // Lemmas about the entry sequence
  // ---------------------------------------------------------------------------

  /** Sizes add up over a concatenation. */
  lemma {:induction false} SizeSumAppend(a: seq<Entry>, b: seq<Entry>)
    ensures SizeSum(a + b) == SizeSum(a) + SizeSum(b)
    decreases |b|
  {
    if b == [] {
      assert a + b == a;
    } else {
      assert (a + b)[..|a + b| - 1] == a + b[..|b| - 1];
      SizeSumAppend(a, b[..|b| - 1]);
    }
  }

  /** The size of a non-empty sequence is that of its head plus that of the rest. */
  lemma {:induction false} SizeSumHead(es: seq<Entry>)
    requires es != []
    ensures SizeSum(es) == es[0].size + SizeSum(es[1..])
  {
    assert es == [es[0]] + es[1..];
    SizeSumAppend([es[0]], es[1..]);
    assert [es[0]][..0] == [];
  }

  /** Removing the entry at `i` and putting `e` at the end changes the size by the difference. */
  lemma {:induction false} SizeSumReplace(es: seq<Entry>, i: int, e: Entry)
    requires 0 <= i < |es|
    ensures SizeSum(es[..i] + es[i + 1..] + [e]) == SizeSum(es) - es[i].size + e.size
  {
    assert es == es[..i] + [es[i]] + es[i + 1..];
    SizeSumAppend(es[..i] + [es[i]], es[i + 1..]);
    SizeSumAppend(es[..i], [es[i]]);
    SizeSumAppend(es[..i], es[i + 1..]);
    SizeSumAppend(es[..i] + es[i + 1..], [e]);
    assert [es[i]][..0] == [] && [e][..0] == [];
  }

  /** Where an entry of `es[..i] + es[i + 1..] + [x]` sits in `es`, for the positions other than the last. */
  function Source(i: int, p: int): int
  {
    if p < i then p else p + 1
  }

  /** Moving entry `i` to the end and giving it a new reader keeps the keys unique. */
  lemma {:induction false} MoveKeepsDistinct(es: seq<Entry>, i: int, e: Entry)
    requires 0 <= i < |es| && DistinctIds(es) && e.id == es[i].id
    ensures DistinctIds(es[..i] + es[i + 1..] + [e])
  {
    var t := es[..i] + es[i + 1..] + [e];
    assert |t| == |es|;
    forall p | 0 <= p < |t| - 1
      ensures t[p] == es[Source(i, p)] && Source(i, p) != i && 0 <= Source(i, p) < |es|
    {
    }
    forall p, q | 0 <= p < |t| && 0 <= q < |t| && p != q
      ensures !BlockIdEquals(t[p].id, t[q].id)
    {
      var sp := if p == |t| - 1 then i else Source(i, p);
      var sq := if q == |t| - 1 then i else Source(i, q);
      assert t[p].id == es[sp].id && t[q].id == es[sq].id;
    }
  }

  /** A key the map does not hold keeps the keys unique when appended. */
  lemma {:induction false} AppendKeepsDistinct(es: seq<Entry>, e: Entry)
    requires DistinctIds(es) && Find(es, e.id) < 0
    ensures DistinctIds(es + [e])
  {
    var t := es + [e];
    forall p, q | 0 <= p < |t| && 0 <= q < |t| && p != q
      ensures !BlockIdEquals(t[p].id, t[q].id)
    {
      if q == |es| {
        assert !BlockIdEquals(es[p].id, e.id);
      } else if p == |es| {
        assert !BlockIdEquals(es[q].id, e.id);
        BlockIdEqualsEquivalence(e.id, es[q].id, e.id);
      }
    }
  }

  // ---------------------------------------------------------------------------
  // What put, get and eviction promise
  // ---------------------------------------------------------------------------

  /**
   * Inserting a new key keeps the accounting: `nowSize` stays the size of
   * what is cached and keys stay unique.
   */
  lemma {:induction false} AddNewAccounted(s: Lru, e: Entry, capacity: int)
    requires Accounted(s) && Find(s.entries, e.id) < 0
    ensures Accounted(AddNew(s, e, capacity))
  {
    var es := s.entries + [e];
    SizeSumAppend(s.entries, [e]);
    assert [e][..0] == [];
    AppendKeepsDistinct(s.entries, e);
    if s.nowSize + e.size > capacity {
      SizeSumHead(es);
      var t := es[1..];
      forall p, q | 0 <= p < |t| && 0 <= q < |t| && p != q
        ensures !BlockIdEquals(t[p].id, t[q].id)
      {
        assert t[p] == es[p + 1] && t[q] == es[q + 1];
      }
    }
  }

  /**
   * Inserting a new key evicts at most one entry, the least recently used,
   * and only when the added size pushes `nowSize` over the capacity;
   * otherwise nothing is removed.  The new entry is the most recently used
   * one unless it evicted itself from an empty cache.
   */
  lemma {:induction false} AddNewEvictsAtMostOne(s: Lru, e: Entry, capacity: int)
    ensures var r := AddNew(s, e, capacity);
      if s.nowSize + e.size > capacity then
        r.entries == (s.entries + [e])[1..] && r.nowSize == s.nowSize + e.size - (s.entries + [e])[0].size
      else
        r.entries == s.entries + [e] && r.nowSize == s.nowSize + e.size
    ensures var r := AddNew(s, e, capacity);
      |s.entries| <= |r.entries| <= |s.entries| + 1 && (r.entries == [] || r.entries[|r.entries| - 1] == e)
  {
  }

  /**
   * An access keeps the accounting and moves the entry to the most recently
   * used end, the others keeping their relative order.
   */
  lemma {:induction false} TouchAccounted(s: Lru, i: int)
    requires Accounted(s) && 0 <= i < |s.entries|
    ensures Accounted(Lru(Touch(s.entries, i), s.nowSize))
    ensures |Touch(s.entries, i)| == |s.entries| && Touch(s.entries, i)[|s.entries| - 1] == s.entries[i]
    ensures multiset(Touch(s.entries, i)) == multiset(s.entries)
  {
    var es := s.entries;
    SizeSumReplace(es, i, es[i]);
    MoveKeepsDistinct(es, i, es[i]);
    assert es == es[..i] + [es[i]] + es[i + 1..];
  }

  /**
   * An entry touched by `get` survives the next eviction as long as a less
   * recently used entry exists: only the head of the access order is ever
   * evicted, and the touched entry is at the tail.
   */
  lemma {:induction false} TouchedSurvives(s: Lru, i: int, e: Entry, capacity: int)
    requires 0 <= i < |s.entries| && 2 <= |s.entries|
    ensures s.entries[i] in AddNew(Lru(Touch(s.entries, i), s.nowSize), e, capacity).entries
  {
    var t := Touch(s.entries, i);
    var es := t + [e];
    assert es[|t| - 1] == s.entries[i];
    assert (es[1..])[|t| - 2] == s.entries[i];
  }

  /**
   * Replacing the reader of a key the map holds keeps the accounting when
   * the replaced reader's size is taken out.
   */
  lemma {:induction false} ReplaceAccounted(s: Lru, i: int, reader: BlockReader, size: int)
    requires Accounted(s) && 0 <= i < |s.entries|
    ensures Accounted(Replace(s, i, reader, size))
    ensures |Replace(s, i, reader, size).entries| == |s.entries|
  {
    var es := s.entries;
    var e := Entry(es[i].id, reader, size);
    SizeSumReplace(es, i, e);
    MoveKeepsDistinct(es, i, e);
  }

  /**
   * As written, putting a key the map already holds counts both readers:
   * from a cache holding one entry of size `size`, putting the same key
   * again leaves one entry but `nowSize` at twice its size.
   */
  lemma {:induction false} ReplaceAsWrittenOvercounts(e: Entry)
    requires e.size > 0
    ensures Accounted(Lru([e], e.size))
    ensures var r := ReplaceAsWritten(Lru([e], e.size), 0, e.reader, e.size);
      |r.entries| == 1 && r.nowSize == 2 * e.size && r.nowSize != SizeSum(r.entries)
  {
    assert [e][..0] == [];
    assert SizeSum([e]) == e.size;
    var r := ReplaceAsWritten(Lru([e], e.size), 0, e.reader, e.size);
    assert r.entries == [e];
  }

  // ---------------------------------------------------------------------------
  // Repeated insertion
  // ---------------------------------------------------------------------------

  /** Inserting the entries `es`, each under a key the map does not hold, one after another. */
  function AddAll(s: Lru, es: seq<Entry>, capacity: int): Lru
  {
    if es == [] then s else AddNew(AddAll(s, es[..|es| - 1], capacity), es[|es| - 1], capacity)
  }

  /**
   * Readers of size 0 never cause an eviction: into an empty cache of any
   * non-negative capacity, every one of them stays.
   */
  lemma {:induction false} ZeroSizesStay(es: seq<Entry>, capacity: int)
    requires capacity >= 0
    requires forall i | 0 <= i < |es| :: es[i].size == 0
    ensures AddAll(Lru([], 0), es, capacity) == Lru(es, 0)
    decreases |es|
  {
    if es != [] {
      var init := es[..|es| - 1];
      ZeroSizesStay(init, capacity);
      assert init + [es[|es| - 1]] == es;
    }
  }

  /**
   * Readers of 11 bytes each (one record with a 1-byte key and a 1-byte
   * value) into an empty cache of capacity 32: after `n` insertions the
   * cache holds `min(n, 2)` entries, the most recent ones.
   */
  lemma {:induction false} ElevenByteReadersSettleAtTwo(es: seq<Entry>)
    requires forall e | e in es :: e.size == 11
    ensures AddAll(Lru([], 0), es, 32) == Lru(LastTwo(es), 11 * |LastTwo(es)|)
    decreases |es|
  {
    if es != [] {
      var init, last := es[..|es| - 1], es[|es| - 1];
      assert es == init + [last];
      ElevenByteReadersSettleAtTwo(init);
      SettleStep(init, last);
    }
  }

  /** One more 11-byte entry keeps the last two. */
  lemma {:induction false} SettleStep(init: seq<Entry>, last: Entry)
    requires forall e | e in init :: e.size == 11
    requires last.size == 11
    ensures AddNew(Lru(LastTwo(init), 11 * |LastTwo(init)|), last, 32)
            == Lru(LastTwo(init + [last]), 11 * |LastTwo(init + [last])|)
  {
    var es := init + [last];
    if |init| >= 2 {
      var a, b := init[|init| - 2], init[|init| - 1];
      assert LastTwo(init) == [a, b];
      assert a in init;
      AddEvicts(a, b, last);
      assert LastTwo(es) == [b, last];
    } else {
      AddGrows(Lru(LastTwo(init), 11 * |LastTwo(init)|), last);
    }
  }

  /** The last two entries, or all of them when there are fewer. */
  function LastTwo(es: seq<Entry>): seq<Entry>
  {
    if |es| < 2 then es else es[|es| - 2..]
  }

  /** A third 11-byte entry into a cache of capacity 32 holding two evicts the eldest. */
  lemma {:induction false} AddEvicts(a: Entry, b: Entry, c: Entry)
    requires a.size == 11 && b.size == 11 && c.size == 11
    ensures AddNew(Lru([a, b], 22), c, 32) == Lru([b, c], 22)
  {
    assert ([a, b] + [c])[1..] == [b, c];
  }

  /** An 11-byte entry into a cache of capacity 32 holding fewer than two 11-byte entries stays. */
  lemma {:induction false} AddGrows(prev: Lru, c: Entry)
    requires |prev.entries| < 2 && prev.nowSize == 11 * |prev.entries| && c.size == 11
    ensures AddNew(prev, c, 32) == Lru(prev.entries + [c], prev.nowSize + 11)
  {
  }

  // ---------------------------------------------------------------------------
  // The cache
  // ---------------------------------------------------------------------------

  class BlockCache {
    const capacity: int
    var entries: seq<Entry>
    var nowSize: int

    /** The cache as a value. */
    function State(): Lru
      reads this
    {
      Lru(entries, nowSize)
    }

    /** `nowSize` is the size of what is cached, and keys are unique. */
    predicate Valid()
      reads this
    {
      Accounted(State())
    }

    /** `BlockCache(capacity)`: empty, with `nowSize` 0. */
    constructor(capacity: int)
      ensures this.capacity == capacity && entries == [] && nowSize == 0
      ensures Valid()
    {
      this.capacity := capacity;
      entries := [];
      nowSize := 0;
    }

    /**
     * The map's `put`: the reader's memory size is added; a new key is
     * appended and may evict the eldest entry, a key already held gets the
     * new reader (with the old reader's size taken back out, see
     * `Replace`).  The accounting is kept.
     */
    method Put(id: BlockId, reader: BlockReader)
      requires Valid()
      modifies this
      ensures Valid()
      ensures var i := Find(old(entries), id);
        State() == (if i < 0 then AddNew(old(State()), Entry(id, reader, reader.memorySize), capacity)
                    else Replace(old(State()), i, reader, reader.memorySize))
    {
      var size := reader.memorySize;
      var i := Find(entries, id);
      if i < 0 {
        AddNewAccounted(State(), Entry(id, reader, size), capacity);
        var s := AddNew(State(), Entry(id, reader, size), capacity);
        entries, nowSize := s.entries, s.nowSize;
      } else {
        ReplaceAccounted(State(), i, reader, size);
        var s := Replace(State(), i, reader, size);
        entries, nowSize := s.entries, s.nowSize;
      }
    }

    /** The map's `get`: the reader under a key `equals` to `id`, which becomes the most recently used. */
    method Lookup(id: BlockId) returns (r: Option<BlockReader>)
      requires Valid()
      modifies this
      ensures Valid()
      ensures var i := Find(old(entries), id);
        if i < 0 then r == None && entries == old(entries)
        else r == Some(old(entries)[i].reader) && entries == Touch(old(entries), i)
      ensures nowSize == old(nowSize)
    {
      var i := Find(entries, id);
      if i < 0 {
        return None;
      }
      TouchAccounted(State(), i);
      r := Some(entries[i].reader);
      entries := Touch(entries, i);
    }

    /**
     * `get(bid)`: on a hit, the cached reader, now the most recently used,
     * with nothing loaded; on a miss, `loaded` (what
     * `bid.getDiskFile().createReader(bid.getMeta())` returns) is put and
     * returned.
     */
    method Get(bid: BlockId, loaded: BlockReader) returns (r: BlockReader)
      requires Valid()
      modifies this
      ensures Valid()
      ensures var i := Find(old(entries), bid);
        if i >= 0 then r == old(entries)[i].reader && State() == Lru(Touch(old(entries), i), old(nowSize))
        else r == loaded && State() == AddNew(old(State()), Entry(bid, loaded, loaded.memorySize), capacity)
    {
      var hit := Lookup(bid);
      if hit.Some? {
        return hit.value;
      }
      Put(bid, loaded);
      r := loaded;
    }
  }
}
