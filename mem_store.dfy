/**
 * `MemStore`: the in-memory write buffer.  Records go into the active sorted
 * map; once its serialized size passes the limit the map is swapped out as
 * the immutable map and handed to a flusher task, and while that flush runs
 * a write that finds the store over the limit is rejected.
 *
 * The locks and the CAS on `isImmutableMapFlushing` are sequential steps
 * here: a CAS is a test-and-set on the `flushing` field, and the flusher
 * task, which the source submits to a thread pool, is a method the caller
 * runs when the flush happens.
 */
module MemStores {
  import opened Wrappers
  import opened ByteUtils
  import opened KeyValues
  import opened SeekIters
  import opened DiskStores

  // ---------------------------------------------------------------------------
  // The sorted map
  // ---------------------------------------------------------------------------

  /**
   * `ConcurrentSkipListMap.put(kv, kv)` on a map whose values, in key order,
   * are `m`: the record goes in at its place, replacing an equal record (one
   * with the same key, sequence id and op), which is returned.
   */
  function Insert(m: seq<KeyValue>, kv: KeyValue): (r: (seq<KeyValue>, Option<KeyValue>))
    ensures |r.0| == |m| + (if r.1.None? then 1 else 0)
  {
    if m == [] then ([kv], None)
    else if KvLess(kv, m[0]) then ([kv] + m, None)
    else if KvEquals(kv, m[0]) then ([kv] + m[1..], Some(m[0]))
    else
      var (t, prev) := Insert(m[1..], kv);
      ([m[0]] + t, prev)
  }

  /** The serialized size of all records in a map. */
  function TotalSize(m: seq<KeyValue>): int
  {
    if m == [] then 0 else SerializedSize(m[0]) + TotalSize(m[1..])
  }

  /** The size a replaced record takes away. */
  function PrevSize(prev: Option<KeyValue>): int
  {
    if prev.None? then 0 else SerializedSize(prev.value)
  }

  /**
   * A map stays a map under `put`: the values stay strictly sorted, `kv` is
   * in, every other record stays exactly when it is not equal to `kv`, and
   * the returned previous value is the equal record that was there.
   */
  lemma {:induction false} InsertSpec(m: seq<KeyValue>, kv: KeyValue)
    requires StrictlySorted(m)
    ensures StrictlySorted(Insert(m, kv).0)
    ensures forall x :: x in Insert(m, kv).0 <==> x == kv || (x in m && !KvEquals(x, kv))
    ensures Insert(m, kv).1.Some? <==> exists y | y in m :: KvEquals(y, kv)
    ensures Insert(m, kv).1.Some? ==> Insert(m, kv).1.value in m && KvEquals(Insert(m, kv).1.value, kv)
  {
    if m != [] {
      var head, tail := m[0], m[1..];
      assert StrictlySorted(tail);
      assert forall y | y in tail :: KvLess(head, y);
      KvAntisymmetric(kv, head);
      if KvLess(kv, head) {
        forall y | y in m
          ensures KvLess(kv, y)
        {
          KvTransitive(kv, head, y);
        }
        forall y | y in m ensures !KvEquals(y, kv) {
          KvAntisymmetric(kv, y);
        }
        SortedCons(kv, m);
      } else if KvEquals(kv, head) {
        forall y | y in tail
          ensures KvLess(kv, y) && !KvEquals(y, kv)
        {
          EqualsIgnoresValue(kv, head);
          KvMixedTransitive(kv, head, y);
          KvAntisymmetric(kv, y);
        }
        SortedCons(kv, tail);
      } else {
        KvTotal(kv, head);
        InsertSpec(tail, kv);
        var t := Insert(tail, kv).0;
        assert Insert(m, kv).0 == [head] + t;
        forall y | y in t
          ensures KvLess(head, y)
        {
          assert y == kv || y in tail;
        }
        SortedCons(head, t);
        assert !KvEquals(head, kv) by {
          KvAntisymmetric(head, kv);
        }
        assert forall y | y in m :: y == head || y in tail;
      }
    }
  }

  /** A record below every record of a strictly sorted sequence can go in front. */
  lemma {:induction false} SortedCons(x: KeyValue, s: seq<KeyValue>)
    requires StrictlySorted(s) && forall y | y in s :: KvLess(x, y)
    ensures StrictlySorted([x] + s)
  {
    var t := [x] + s;
    forall i, j | 0 <= i < j < |t|
      ensures KvLess(t[i], t[j])
    {
      if i > 0 {
        assert t[i] == s[i - 1] && t[j] == s[j - 1];
      } else {
        assert t[j] == s[j - 1];
      }
    }
  }

  /**
   * The size accounting of `add`: after `put`, the map's size is the old
   * size plus the new record's, minus the replaced record's.
   */
  lemma {:induction false} InsertSize(m: seq<KeyValue>, kv: KeyValue)
    ensures TotalSize(Insert(m, kv).0) == TotalSize(m) + SerializedSize(kv) - PrevSize(Insert(m, kv).1)
  {
    if m != [] && !KvLess(kv, m[0]) && !KvEquals(kv, m[0]) {
      InsertSize(m[1..], kv);
      var t := Insert(m[1..], kv).0;
      assert ([m[0]] + t)[1..] == t;
    } else if m != [] && KvEquals(kv, m[0]) {
      assert ([kv] + m[1..])[1..] == m[1..];
    } else if m != [] {
      assert ([kv] + m)[1..] == m;
    }
  }

  // ---------------------------------------------------------------------------
  // The state machine
  // ---------------------------------------------------------------------------

  /** The fields `kvMap`, `kvImmutableMap`, `dataSize` and `isImmutableMapFlushing`. */
  datatype MemState = MemState(active: seq<KeyValue>, immutable: seq<KeyValue>, dataSize: int, flushing: bool)

  /** A new store: both maps empty, size 0, no flush running. */
  function NewMemState(): MemState
  {
    MemState([], [], 0, false)
  }

  /**
   * What holds between calls: both maps are maps, the size counter is the
   * active map's serialized size (as a wrapping `long`), and without a flush
   * running the immutable map is empty, so a swap never drops records.
   */
  ghost predicate Inv(s: MemState)
  {
    StrictlySorted(s.active) && StrictlySorted(s.immutable)
    && s.dataSize == Wrap64(TotalSize(s.active))
    && (!s.flushing ==> s.immutable == [])
  }

  /** The block under the write lock of `flushIfNeeded`, entered with the flag just taken. */
  function SwapStep(s: MemState, max: int): MemState
  {
    if s.dataSize <= max then s.(flushing := false)
    else MemState([], s.active, 0, true)
  }

  /**
   * `flushIfNeeded(mustFlush)`: nothing under the limit; over it, rejection
   * while a flush runs if `mustFlush`, otherwise nothing; with no flush
   * running, the flag is taken and the maps swapped.  The boolean says
   * whether a flusher task was submitted.
   */
  function FlushIfNeededStep(s: MemState, max: int, mustFlush: bool): (MemState, Result<bool>)
  {
    if s.dataSize <= max then (s, Ok(false))
    else if s.flushing && mustFlush then (s, Err(MemStoreFull))
    else if s.flushing then (s, Ok(false))
    else
      var t := SwapStep(s.(flushing := true), max);
      (t, Ok(t.flushing))
  }

  /** The body of `add` between the two checks: `put` and the size update. */
  function PutStep(s: MemState, kv: KeyValue): MemState
  {
    var (m, prev) := Insert(s.active, kv);
    s.(active := m, dataSize := Wrap64(s.dataSize + (SerializedSize(kv) - PrevSize(prev))))
  }

  /** `add(kv)`: check (rejecting when full while flushing), insert, check again. */
  function AddStep(s: MemState, max: int, kv: KeyValue): (MemState, Result<()>)
  {
    var (s1, r1) := FlushIfNeededStep(s, max, true);
    if r1.Err? then (s1, Err(r1.error))
    else (FlushIfNeededStep(PutStep(s1, kv), max, false).0, Ok(()))
  }

  /** The end of `FlusherTask.run`: on success the immutable map is dropped and the flag released. */
  function FlushedStep(s: MemState, success: bool): MemState
  {
    if success then s.(immutable := [], flushing := false) else s
  }

  /** Whether one of the first `retries` flush attempts succeeds. */
  predicate Succeeds(attempts: seq<bool>, retries: int)
  {
    exists i | 0 <= i < retries && i < |attempts| :: attempts[i]
  }

  /** Every record the store holds, in either map. */
  function Held(s: MemState): set<KeyValue>
  {
    set x | x in s.active + s.immutable
  }

  lemma {:induction false} SwapKeeps(s: MemState, max: int)
    requires Inv(s.(flushing := false)) && s.flushing
    ensures Inv(SwapStep(s, max)) && Held(SwapStep(s, max)) == Held(s)
    ensures SwapStep(s, max).flushing <==> s.dataSize > max
  {
    Wrap64Identity(0);
    assert Held(s) == set x | x in s.active;
    if s.dataSize > max {
      assert Held(SwapStep(s, max)) == set x | x in s.active;
    }
  }

  /** `flushIfNeeded` keeps the invariant and moves records between maps without losing any. */
  lemma {:induction false} FlushIfNeededKeeps(s: MemState, max: int, mustFlush: bool)
    requires Inv(s)
    ensures Inv(FlushIfNeededStep(s, max, mustFlush).0)
    ensures Held(FlushIfNeededStep(s, max, mustFlush).0) == Held(s)
  {
    if s.dataSize > max && !s.flushing {
      SwapKeeps(s.(flushing := true), max);
    }
  }

  /**
   * The rejection of `add`: it fails exactly when the store is over the limit
   * while a flush runs, and then changes nothing.
   */
  lemma {:induction false} AddRejects(s: MemState, max: int, kv: KeyValue)
    ensures AddStep(s, max, kv).1.Err? <==> s.dataSize > max && s.flushing
    ensures AddStep(s, max, kv).1.Err? ==> AddStep(s, max, kv) == (s, Err(MemStoreFull))
  {
  }

  /**
   * `add` keeps the invariant, and the store then holds `kv` and every
   * record it held before except those equal to `kv` (same key, sequence id
   * and op), which `kv` replaces; it holds nothing else.
   */
  lemma {:induction false} AddKeeps(s: MemState, max: int, kv: KeyValue)
    requires Inv(s)
    ensures var t := AddStep(s, max, kv).0;
            Inv(t) && (AddStep(s, max, kv).1.Ok? ==> kv in Held(t))
    ensures AddStep(s, max, kv).1.Ok? ==>
              forall x | x in Held(s) :: x in Held(AddStep(s, max, kv).0) || KvEquals(x, kv)
    ensures AddStep(s, max, kv).1.Ok? ==>
              forall x | x in Held(AddStep(s, max, kv).0) :: x in Held(s) || x == kv
  {
    var (s1, r1) := FlushIfNeededStep(s, max, true);
    FlushIfNeededKeeps(s, max, true);
    if r1.Ok? {
      var s2 := PutStep(s1, kv);
      InsertSpec(s1.active, kv);
      InsertSize(s1.active, kv);
      NarrowAdd(TotalSize(s1.active), SerializedSize(kv) - PrevSize(Insert(s1.active, kv).1), 8);
      assert Inv(s2);
      FlushIfNeededKeeps(s2, max, false);
      forall x | x in Held(s)
        ensures x in Held(s2) || KvEquals(x, kv)
      {
        assert x in s1.active || x in s1.immutable;
      }
      forall x | x in Held(s2)
        ensures x in Held(s) || x == kv
      {
        assert x in s2.active || x in s2.immutable;
      }
    }
  }

  /** The flusher task keeps the invariant; on success only the active map is left. */
  lemma {:induction false} FlushedKeeps(s: MemState, success: bool)
    requires Inv(s)
    ensures Inv(FlushedStep(s, success))
    ensures success ==> Held(FlushedStep(s, success)) == set x | x in s.active
  {
    if success {
      assert s.active + [] == s.active;
    }
  }

  /**
   * The blocking-put scenario at a 26-byte limit with 25-byte records: the
   * second put swaps; while that flush runs the fifth put is rejected with
   * 50 bytes buffered; after the flush the same put swaps first and then
   * inserts, leaving only itself, 25 bytes, in the active map.
   */
  lemma {:induction false} BlockingPutScenario(k: seq<Byte>, v1: seq<Byte>, v2: seq<Byte>, v3: seq<Byte>,
                                               v4: seq<Byte>, v5: seq<Byte>)
    requires |k| == 4 && |v1| == 4 && |v2| == 4 && |v3| == 4 && |v4| == 4 && |v5| == 4
    ensures var kv1, kv2 := KeyValue(k, v1, Put, 1), KeyValue(k, v2, Put, 2);
            var kv3, kv4, kv5 := KeyValue(k, v3, Put, 3), KeyValue(k, v4, Put, 4), KeyValue(k, v5, Put, 5);
            var s1 := AddStep(NewMemState(), 26, kv1).0;
            var s2 := AddStep(s1, 26, kv2).0;
            var s4 := AddStep(AddStep(s2, 26, kv3).0, 26, kv4).0;
            var (s5, r5) := AddStep(s4, 26, kv5);
            var s6 := AddStep(FlushedStep(s5, true), 26, kv5).0;
            s1.dataSize == 25 && s2.dataSize == 0 && s2.flushing
            && r5 == Err(MemStoreFull) && s5.flushing && s5.dataSize == 50
            && s6.dataSize == 25 && s6.active == [kv5]
  {
    var kv1, kv2 := KeyValue(k, v1, Put, 1), KeyValue(k, v2, Put, 2);
    var kv3, kv4, kv5 := KeyValue(k, v3, Put, 3), KeyValue(k, v4, Put, 4), KeyValue(k, v5, Put, 5);
    Wrap64Identity(25);
    Wrap64Identity(50);
    CompareZeroIffEqual(k, k);
    var s1 := AddStep(NewMemState(), 26, kv1).0;
    assert s1 == MemState([kv1], [], 25, false);
    var s2 := AddStep(s1, 26, kv2).0;
    assert PutStep(s1, kv2).active == [kv2, kv1];
    assert s2 == MemState([], [kv2, kv1], 0, true);
    var s3 := AddStep(s2, 26, kv3).0;
    assert s3 == MemState([kv3], [kv2, kv1], 25, true);
    var s4 := AddStep(s3, 26, kv4).0;
    assert PutStep(s3, kv4).active == [kv4, kv3];
    assert s4 == MemState([kv4, kv3], [kv2, kv1], 50, true);
    var s6 := AddStep(FlushedStep(s4, true), 26, kv5).0;
    assert s6 == MemState([kv5], [kv4, kv3], 25, true);
  }

  // ---------------------------------------------------------------------------
  // MemStore
  // ---------------------------------------------------------------------------

  class MemStore {
    /** `conf.getMaxMemStoreSize()` and `conf.getFlushMaxRetryTimes()`. */
    const maxMemStoreSize: int
    const flushMaxRetryTimes: int
    var kvMap: seq<KeyValue>
    var kvImmutableMap: seq<KeyValue>
    var dataSize: int
    var flushing: bool

    function State(): MemState
      reads this
    {
      MemState(kvMap, kvImmutableMap, dataSize, flushing)
    }

    ghost predicate Valid()
      reads this
    {
      Inv(State())
    }

    constructor(maxMemStoreSize: int, flushMaxRetryTimes: int)
      ensures Valid() && State() == NewMemState()
      ensures this.maxMemStoreSize == maxMemStoreSize && this.flushMaxRetryTimes == flushMaxRetryTimes
    {
      this.maxMemStoreSize := maxMemStoreSize;
      this.flushMaxRetryTimes := flushMaxRetryTimes;
      kvMap := [];
      kvImmutableMap := [];
      dataSize := 0;
      flushing := false;
      new;
      Wrap64Identity(0);
    }

    /** `add(kv)`. */
    method Add(kv: KeyValue) returns (r: Result<()>)
      requires Valid()
      modifies this
      ensures Valid()
      ensures (State(), r) == AddStep(old(State()), maxMemStoreSize, kv)
    {
      ghost var s := State();
      AddKeeps(s, maxMemStoreSize, kv);
      var first := FlushIfNeeded(true);
      if first.Err? {
        return Err(first.error);
      }
      Put(kv);
      var second := FlushIfNeeded(false);
      r := Ok(());
    }

    /** The locked block of `add`: `kvMap.put(kv, kv)` and the size update by the difference. */
    method Put(kv: KeyValue)
      modifies this
      ensures State() == PutStep(old(State()), kv)
    {
      var inserted := Insert(kvMap, kv);
      var prev := inserted.1;
      kvMap := inserted.0;
      if prev.None? {
        dataSize := Wrap64(dataSize + SerializedSize(kv));
      } else {
        dataSize := Wrap64(dataSize + (SerializedSize(kv) - SerializedSize(prev.value)));
      }
    }

    /** `flushIfNeeded(mustFlush)`; `Ok(true)` when a flusher task was submitted. */
    method FlushIfNeeded(mustFlush: bool) returns (r: Result<bool>)
      modifies this
      ensures (State(), r) == FlushIfNeededStep(old(State()), maxMemStoreSize, mustFlush)
    {
      if dataSize > maxMemStoreSize {
        if flushing && mustFlush {
          return Err(MemStoreFull);
        } else if !flushing {
          flushing := true;
          SwapUnderLock();
          return Ok(flushing);
        }
      }
      r := Ok(false);
    }

    /**
     * The write-locked block of `flushIfNeeded`, entered holding the flag:
     * the double check releases it if the size has dropped back under the
     * limit, otherwise the active map becomes the immutable one.
     */
    method SwapUnderLock()
      requires flushing
      modifies this
      ensures State() == SwapStep(old(State()), maxMemStoreSize)
    {
      if dataSize <= maxMemStoreSize {
        flushing := false;
        return;
      }
      kvImmutableMap := kvMap;
      kvMap := [];
      dataSize := 0;
    }

    /**
     * `FlusherTask.run()`: up to `flushMaxRetryTimes` attempts to flush the
     * immutable map, `attempts[i]` saying whether attempt `i` succeeds.  On
     * success the flushed records are returned, the immutable map dropped
     * and the flag released; when every attempt fails nothing changes and
     * the flag stays taken.
     */
    method RunFlusherTask(attempts: seq<bool>) returns (flushed: Option<seq<KeyValue>>)
      modifies this
      ensures State() == FlushedStep(old(State()), Succeeds(attempts, flushMaxRetryTimes))
      ensures flushed == if Succeeds(attempts, flushMaxRetryTimes) then Some(old(kvImmutableMap)) else None
    {
      var success := false;
      var i := 0;
      while i < flushMaxRetryTimes
        invariant 0 <= i && (i > 0 ==> i <= flushMaxRetryTimes)
        invariant !success ==> forall j | 0 <= j < i && j < |attempts| :: !attempts[j]
        invariant success ==> Succeeds(attempts, flushMaxRetryTimes)
        decreases flushMaxRetryTimes - i
      {
        if i < |attempts| && attempts[i] {
          success := true;
          break;
        }
        i := i + 1;
      }
      if success {
        flushed := Some(kvImmutableMap);
        kvImmutableMap := [];
        flushing := false;
      } else {
        flushed := None;
      }
    }

    /** `getMemStoreMaps()`: the active map, then the immutable one. */
    method GetMemStoreMaps() returns (active: seq<KeyValue>, immutable: seq<KeyValue>)
      ensures active == kvMap && immutable == kvImmutableMap
    {
      active, immutable := kvMap, kvImmutableMap;
    }

    /**
     * `createIterator()`: a `MemStoreIter`, the merge of an `IteratorWrapper`
     * over each map; it yields every record of both maps, smallest first.
     */
    method CreateIterator() returns (it: MultiIter)
      requires Valid()
      ensures fresh(it) && it.Valid() && |it.iters| == 2
      ensures it.Remaining() == multiset(kvMap) + multiset(kvImmutableMap)
    {
      var active, immutable := GetMemStoreMaps();
      var sources := [Some(Wrap(active)), Some(Wrap(immutable))];
      StrictlySortedIsSorted(active);
      StrictlySortedIsSorted(immutable);
      it := new MultiIter(sources);
      UnreadPair(Wrap(active), Wrap(immutable));
    }
  }

  lemma {:induction false} StrictlySortedIsSorted(s: seq<KeyValue>)
    requires StrictlySorted(s)
    ensures Sorted(s)
  {
  }

  lemma {:induction false} UnreadPair(a: Cursor<KeyValue>, b: Cursor<KeyValue>)
    ensures Unread([Some(a), Some(b)]) == multiset(a.Rest()) + multiset(b.Rest())
  {
    var s := [Some(a), Some(b)];
    assert s[1..] == [Some(b)] && s[1..][1..] == [];
    assert Unread(s[1..]) == SourceRest(Some(b)) + Unread([]);
  }
}
