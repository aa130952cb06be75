/**
 * `MStore`: the read path over the merged memstore and disk records, and
 * the global sequence id.
 *
 * `ScanIter` resolves the merged records, which come sorted (newest version
 * of a key first), into what a reader sees: the newest version of each key
 * when it is a Put, nothing for a key whose newest version is a Delete, and
 * nothing at or past the stop key.  The merged iterator it reads from is
 * represented by the sequence of records it yields.
 */
module MStores {
  import opened Wrappers
  import opened ByteUtils
  import opened KeyValues
  import opened SeekIters

  // ---------------------------------------------------------------------------
  // Key order
  // ---------------------------------------------------------------------------

  predicate KeyLeq(a: seq<Byte>, b: seq<Byte>)
  {
    CompareBytes(a, b) <= 0
  }

  lemma {:induction false} KeyLeqTransitive(a: seq<Byte>, b: seq<Byte>, c: seq<Byte>)
    requires KeyLeq(a, b) && KeyLeq(b, c)
    ensures KeyLeq(a, c)
    ensures CompareBytes(a, b) < 0 || CompareBytes(b, c) < 0 ==> CompareBytes(a, c) < 0
  {
    CompareZeroIffEqual(a, b);
    CompareZeroIffEqual(b, c);
    if CompareBytes(a, b) < 0 && CompareBytes(b, c) < 0 {
      CompareTransitive(a, b, c);
    }
  }

  /** Records whose keys never decrease, as a merge over sorted sources yields them. */
  predicate KeysSorted(s: seq<KeyValue>)
  {
    forall i, j | 0 <= i < j < |s| :: KeyLeq(s[i].key, s[j].key)
  }

  /** Records in the record order have non-decreasing keys. */
  lemma {:induction false} SortedKeys(s: seq<KeyValue>)
    requires Sorted(s)
    ensures KeysSorted(s)
  {
    forall i, j | 0 <= i < j < |s|
      ensures KeyLeq(s[i].key, s[j].key)
    {
      KvLessMeans(s[i], s[j]);
      EqualsIgnoresValue(s[i], s[j]);
      CompareZeroIffEqual(s[i].key, s[j].key);
    }
  }

  /** `shouldStop(kv)`: there is a stop record and `kv`'s key is at or past its key. */
  predicate ShouldStop(stopKv: Option<KeyValue>, kv: KeyValue)
  {
    stopKv.Some? && KeyLeq(stopKv.value.key, kv.key)
  }

  /** Every record from `pos` on has a key at or above `key`. */
  ghost predicate KeyBelowRest(key: seq<Byte>, input: seq<KeyValue>, pos: int)
  {
    forall i | 0 <= i < |input| && pos <= i :: KeyLeq(key, input[i].key)
  }

  /** Every record from `pos` on is at or past the stop key. */
  ghost predicate RestStops(stopKv: Option<KeyValue>, input: seq<KeyValue>, pos: int)
  {
    forall i | 0 <= i < |input| && pos <= i :: ShouldStop(stopKv, input[i])
  }

  function KeyOf(kv: Option<KeyValue>): Option<seq<Byte>>
  {
    if kv.None? then None else Some(kv.value.key)
  }

  // ---------------------------------------------------------------------------
  // What a scan yields
  // ---------------------------------------------------------------------------

  /**
   * The records a reader sees, as an independent definition: going through
   * `s` up to the first record at or past the stop key, the first record of
   * each key (the newest version), when it is a Put.  `prev` is the key
   * already dealt with, whose remaining versions are skipped.
   */
  function Resolve(s: seq<KeyValue>, prev: Option<seq<Byte>>, stopKv: Option<KeyValue>): seq<KeyValue>
  {
    if s == [] || ShouldStop(stopKv, s[0]) then []
    else if prev == Some(s[0].key) then Resolve(s[1..], prev, stopKv)
    else (if s[0].op == Put then [s[0]] else []) + Resolve(s[1..], Some(s[0].key), stopKv)
  }

  /** `s[i]` is the first record of its key, `prev` counting as the key before `s`. */
  predicate FirstOfKey(s: seq<KeyValue>, i: int, prev: Option<seq<Byte>>)
    requires 0 <= i < |s|
  {
    if i == 0 then prev != Some(s[0].key) else s[i - 1].key != s[i].key
  }

  /** No record up to and including `s[i]` reaches the stop key. */
  predicate BeforeStop(s: seq<KeyValue>, i: int, stopKv: Option<KeyValue>)
    requires 0 <= i < |s|
  {
    forall j | 0 <= j <= i :: !ShouldStop(stopKv, s[j])
  }

  /**
   * Everything a scan yields is a Put from the input, below the stop key and
   * the first record of its key.
   */
  lemma {:induction false} ResolveSound(s: seq<KeyValue>, prev: Option<seq<Byte>>, stopKv: Option<KeyValue>)
    ensures forall x | x in Resolve(s, prev, stopKv) ::
              exists i | 0 <= i < |s| :: s[i] == x && x.op == Put && FirstOfKey(s, i, prev) && BeforeStop(s, i, stopKv)
  {
    if s != [] && !ShouldStop(stopKv, s[0]) {
      var tail := s[1..];
      var p := if prev == Some(s[0].key) then prev else Some(s[0].key);
      ResolveSound(tail, p, stopKv);
      forall x | x in Resolve(s, prev, stopKv)
        ensures exists i | 0 <= i < |s| :: s[i] == x && x.op == Put && FirstOfKey(s, i, prev) && BeforeStop(s, i, stopKv)
      {
        if prev != Some(s[0].key) && s[0].op == Put && x == s[0] {
          assert FirstOfKey(s, 0, prev) && BeforeStop(s, 0, stopKv);
        } else {
          assert x in Resolve(tail, p, stopKv);
          var k :| 0 <= k < |tail| && tail[k] == x && x.op == Put && FirstOfKey(tail, k, p) && BeforeStop(tail, k, stopKv);
          assert s[k + 1] == x;
          assert FirstOfKey(s, k + 1, prev);
          forall j | 0 <= j <= k + 1
            ensures !ShouldStop(stopKv, s[j])
          {
            if j > 0 {
              assert s[j] == tail[j - 1];
            }
          }
        }
      }
    }
  }

  /**
   * And a scan yields every such record: on key-sorted input, each Put that
   * is the first record of its key and comes before the stop is yielded.
   */
  lemma {:induction false} ResolveComplete(s: seq<KeyValue>, prev: Option<seq<Byte>>, stopKv: Option<KeyValue>)
    requires KeysSorted(s)
    ensures forall i | 0 <= i < |s| && s[i].op == Put && FirstOfKey(s, i, prev) && BeforeStop(s, i, stopKv) ::
              s[i] in Resolve(s, prev, stopKv)
  {
    if s != [] && !ShouldStop(stopKv, s[0]) {
      var tail := s[1..];
      var p := if prev == Some(s[0].key) then prev else Some(s[0].key);
      assert KeysSorted(tail);
      ResolveComplete(tail, p, stopKv);
      forall i | 0 < i < |s| && s[i].op == Put && FirstOfKey(s, i, prev) && BeforeStop(s, i, stopKv)
        ensures s[i] in Resolve(tail, p, stopKv)
      {
        assert tail[i - 1] == s[i];
        if i == 1 {
          assert p == Some(s[0].key);
        }
        assert FirstOfKey(tail, i - 1, p) by {
          if i == 1 {
            assert s[0].key != s[1].key;
          }
        }
        forall j | 0 <= j <= i - 1
          ensures !ShouldStop(stopKv, tail[j])
        {
          assert tail[j] == s[j + 1];
        }
      }
    }
  }

  /**
   * A Delete as the newest version hides its key: when the first record of
   * a key is a Delete, no record of that key is yielded, older Puts included.
   */
  lemma {:induction false} DeleteHidesKey(s: seq<KeyValue>, prev: Option<seq<Byte>>, stopKv: Option<KeyValue>, i: int)
    requires KeysSorted(s) && 0 <= i < |s| && s[i].op == Delete && FirstOfKey(s, i, prev)
    requires prev.Some? ==> KeyBelowRest(prev.value, s, 0)
    ensures forall x | x in Resolve(s, prev, stopKv) :: x.key != s[i].key
  {
    ResolveSound(s, prev, stopKv);
    forall x | x in Resolve(s, prev, stopKv)
      ensures x.key != s[i].key
    {
      var j :| 0 <= j < |s| && s[j] == x && x.op == Put && FirstOfKey(s, j, prev) && BeforeStop(s, j, stopKv);
      if x.key == s[i].key {
        FirstIsUnique(s, prev, i, j);
      }
    }
  }

  /** In key-sorted input, the first record of a key is unique. */
  lemma {:induction false} FirstIsUnique(s: seq<KeyValue>, prev: Option<seq<Byte>>, i: int, j: int)
    requires KeysSorted(s) && 0 <= i < |s| && 0 <= j < |s| && s[i].key == s[j].key
    requires FirstOfKey(s, i, prev) && FirstOfKey(s, j, prev)
    requires prev.Some? ==> KeyBelowRest(prev.value, s, 0)
    ensures i == j
  {
    if i < j {
      KeysBetween(s, i, j);
    } else if j < i {
      KeysBetween(s, j, i);
    }
  }

  lemma {:induction false} KeysBetween(s: seq<KeyValue>, i: int, j: int)
    requires KeysSorted(s) && 0 <= i < j < |s| && s[i].key == s[j].key
    ensures s[j - 1].key == s[j].key
  {
    CompareAntisymmetric(s[j - 1].key, s[j].key);
    CompareZeroIffEqual(s[j - 1].key, s[j].key);
    if i < j - 1 {
      assert KeyLeq(s[i].key, s[j - 1].key);
    }
  }

  /** Strictly increasing keys: at most one record per key. */
  predicate KeysIncrease(r: seq<KeyValue>)
  {
    forall a, b | 0 <= a < b < |r| :: CompareBytes(r[a].key, r[b].key) < 0
  }

  /**
   * On key-sorted input everything a scan yields lies strictly above a key
   * at or below all of the input: the key already dealt with is never
   * yielded again.
   */
  lemma {:induction false} ResolveAbove(s: seq<KeyValue>, prev: Option<seq<Byte>>, stopKv: Option<KeyValue>)
    requires KeysSorted(s) && prev.Some? && KeyBelowRest(prev.value, s, 0)
    ensures forall x | x in Resolve(s, prev, stopKv) :: CompareBytes(prev.value, x.key) < 0
  {
    if s != [] && !ShouldStop(stopKv, s[0]) {
      var tail := s[1..];
      TailSorted(s);
      if prev == Some(s[0].key) {
        ResolveAbove(tail, prev, stopKv);
      } else {
        ResolveAbove(tail, Some(s[0].key), stopKv);
        CompareZeroIffEqual(prev.value, s[0].key);
        forall x | x in Resolve(tail, Some(s[0].key), stopKv)
          ensures CompareBytes(prev.value, x.key) < 0
        {
          KeyLeqTransitive(prev.value, s[0].key, x.key);
        }
      }
    }
  }

  /** The tail of key-sorted records is key-sorted and at or above the head's key. */
  lemma {:induction false} TailSorted(s: seq<KeyValue>)
    requires KeysSorted(s) && s != []
    ensures KeysSorted(s[1..]) && KeyBelowRest(s[0].key, s[1..], 0)
  {
    var tail := s[1..];
    forall k | 0 <= k < |tail|
      ensures KeyLeq(s[0].key, tail[k].key)
    {
      assert tail[k] == s[k + 1];
    }
  }

  /** On key-sorted input, what a scan yields comes in strictly increasing key order. */
  lemma {:induction false} ResolveIncreasing(s: seq<KeyValue>, prev: Option<seq<Byte>>, stopKv: Option<KeyValue>)
    requires KeysSorted(s)
    ensures KeysIncrease(Resolve(s, prev, stopKv))
  {
    if s != [] && !ShouldStop(stopKv, s[0]) {
      var tail := s[1..];
      TailSorted(s);
      if prev == Some(s[0].key) {
        ResolveIncreasing(tail, prev, stopKv);
      } else {
        var rest := Resolve(tail, Some(s[0].key), stopKv);
        ResolveIncreasing(tail, Some(s[0].key), stopKv);
        if s[0].op == Put {
          ResolveAbove(tail, Some(s[0].key), stopKv);
          ConsIncreases(s[0], rest);
        }
      }
    }
  }

  /** A record below every key of an increasing sequence keeps it increasing when put in front. */
  lemma {:induction false} ConsIncreases(kv: KeyValue, rest: seq<KeyValue>)
    requires KeysIncrease(rest) && forall x | x in rest :: CompareBytes(kv.key, x.key) < 0
    ensures KeysIncrease([kv] + rest)
  {
    var r := [kv] + rest;
    forall a, b | 0 <= a < b < |r|
      ensures CompareBytes(r[a].key, r[b].key) < 0
    {
      assert r[b] == rest[b - 1] && rest[b - 1] in rest;
      if a > 0 {
        assert r[a] == rest[a - 1];
      }
    }
  }

  // ---------------------------------------------------------------------------
  // switchToNewKey
  // ---------------------------------------------------------------------------

  /**
   * The loop of `switchToNewKey` from position `pos` of the merged records
   * with `last` as `lastKv`: the new position, `lastKv` and `pendingKv`.  A
   * record at or past the stop key is consumed and ends the loop; a record
   * of a new key becomes `lastKv`, and pending too when it is a Put, which
   * ends the loop; a record of the current key is skipped.
   */
  function SwitchLoop(input: seq<KeyValue>, pos: int, last: Option<KeyValue>, stopKv: Option<KeyValue>)
    : (r: (int, Option<KeyValue>, Option<KeyValue>))
    requires 0 <= pos <= |input|
    ensures pos <= r.0 <= |input|
    ensures r.2.Some? ==> r.1 == r.2 && pos < r.0 && input[r.0 - 1] == r.2.value
    decreases |input| - pos
  {
    if pos == |input| then (pos, last, None)
    else
      var cur := input[pos];
      if ShouldStop(stopKv, cur) then (pos + 1, last, None)
      else if last.None? || CompareBytes(last.value.key, cur.key) < 0 then
        if cur.op == Put then (pos + 1, Some(cur), Some(cur)) else SwitchLoop(input, pos + 1, Some(cur), stopKv)
      else SwitchLoop(input, pos + 1, last, stopKv)
  }

  /** `switchToNewKey()`: nothing when `lastKv` is already at or past the stop key, otherwise the loop. */
  function Switch(input: seq<KeyValue>, pos: int, last: Option<KeyValue>, stopKv: Option<KeyValue>)
    : (r: (int, Option<KeyValue>, Option<KeyValue>))
    requires 0 <= pos <= |input|
    ensures pos <= r.0 <= |input|
    ensures r.2.Some? ==> r.1 == r.2
  {
    if last.Some? && ShouldStop(stopKv, last.value) then (pos, last, None)
    else SwitchLoop(input, pos, last, stopKv)
  }

  lemma {:induction false} StopsFromHere(input: seq<KeyValue>, stopKv: Option<KeyValue>, key: seq<Byte>, pos: int)
    requires stopKv.Some? && KeyLeq(stopKv.value.key, key) && KeyBelowRest(key, input, pos)
    ensures RestStops(stopKv, input, pos)
  {
    forall i | 0 <= i < |input| && pos <= i
      ensures ShouldStop(stopKv, input[i])
    {
      KeyLeqTransitive(stopKv.value.key, key, input[i].key);
    }
  }

  lemma {:induction false} ResolveStopped(input: seq<KeyValue>, pos: int, prev: Option<seq<Byte>>, stopKv: Option<KeyValue>)
    requires 0 <= pos <= |input| && RestStops(stopKv, input, pos)
    ensures Resolve(input[pos..], prev, stopKv) == []
  {
    if pos < |input| {
      assert input[pos..][0] == input[pos];
    }
  }

  /**
   * A step `r` of `switchToNewKey` from `pos` with `last` agrees with the
   * definition of what a scan yields: a pending record is the next one
   * `Resolve` yields, and the rest follows from the new position with that
   * record's key dealt with; no pending record means nothing is left to
   * yield.  The new `lastKv` is at or below everything left.
   */
  ghost predicate Resolves(input: seq<KeyValue>, pos: int, last: Option<KeyValue>, stopKv: Option<KeyValue>,
                           r: (int, Option<KeyValue>, Option<KeyValue>))
  {
    0 <= pos <= r.0 <= |input|
    && (r.1.Some? ==> KeyBelowRest(r.1.value.key, input, r.0))
    && (r.2.None? ==> Resolve(input[pos..], KeyOf(last), stopKv) == [] && RestStops(stopKv, input, r.0))
    && (r.2.Some? ==> Resolve(input[pos..], KeyOf(last), stopKv) == [r.2.value] + Resolve(input[r.0..], KeyOf(r.2), stopKv))
  }

  /** `Resolve` from `pos`, one record unfolded. */
  lemma {:induction false} ResolveFrom(input: seq<KeyValue>, pos: int, prev: Option<seq<Byte>>, stopKv: Option<KeyValue>)
    requires 0 <= pos < |input|
    ensures Resolve(input[pos..], prev, stopKv)
            == if ShouldStop(stopKv, input[pos]) then []
               else if prev == Some(input[pos].key) then Resolve(input[pos + 1..], prev, stopKv)
               else (if input[pos].op == Put then [input[pos]] else []) + Resolve(input[pos + 1..], Some(input[pos].key), stopKv)
  {
    assert input[pos..][0] == input[pos] && input[pos..][1..] == input[pos + 1..];
  }

  /** In key-sorted records everything after `pos` is at or above the key at `pos`. */
  lemma {:induction false} SortedFrom(input: seq<KeyValue>, pos: int)
    requires KeysSorted(input) && 0 <= pos < |input|
    ensures KeyBelowRest(input[pos].key, input, pos + 1)
  {
  }

  /** The loop of `switchToNewKey` agrees with `Resolve`. */
  lemma {:induction false} LoopResolves(input: seq<KeyValue>, pos: int, last: Option<KeyValue>, stopKv: Option<KeyValue>)
    requires KeysSorted(input) && 0 <= pos <= |input|
    requires last.Some? ==> KeyBelowRest(last.value.key, input, pos) && !ShouldStop(stopKv, last.value)
    ensures Resolves(input, pos, last, stopKv, SwitchLoop(input, pos, last, stopKv))
    decreases |input| - pos
  {
    if pos < |input| {
      var cur := input[pos];
      ResolveFrom(input, pos, KeyOf(last), stopKv);
      SortedFrom(input, pos);
      if ShouldStop(stopKv, cur) {
        StopsFromHere(input, stopKv, cur.key, pos + 1);
      } else if last.None? || CompareBytes(last.value.key, cur.key) < 0 {
        if last.Some? {
          CompareZeroIffEqual(last.value.key, cur.key);
        }
        if cur.op == Delete {
          LoopResolves(input, pos + 1, Some(cur), stopKv);
        }
      } else {
        assert KeyLeq(last.value.key, cur.key);
        CompareZeroIffEqual(last.value.key, cur.key);
        LoopResolves(input, pos + 1, last, stopKv);
      }
    }
  }

  /** The same for the whole of `switchToNewKey`, whatever `lastKv` is. */
  lemma {:induction false} SwitchResolves(input: seq<KeyValue>, pos: int, last: Option<KeyValue>, stopKv: Option<KeyValue>)
    requires KeysSorted(input) && 0 <= pos <= |input|
    requires last.Some? ==> KeyBelowRest(last.value.key, input, pos)
    ensures Resolves(input, pos, last, stopKv, Switch(input, pos, last, stopKv))
  {
    if last.Some? && ShouldStop(stopKv, last.value) {
      StopsFromHere(input, stopKv, last.value.key, pos);
      ResolveStopped(input, pos, KeyOf(last), stopKv);
    } else {
      LoopResolves(input, pos, last, stopKv);
    }
  }

  // ---------------------------------------------------------------------------
  // ScanIter
  // ---------------------------------------------------------------------------

  class ScanIter {
    const stopKv: Option<KeyValue>
    /** The records the merged iterator yields, and how many it has yielded. */
    const input: seq<KeyValue>
    var pos: int
    var lastKv: Option<KeyValue>
    var pendingKv: Option<KeyValue>

    /** What holds between calls when the merged records are key-sorted. */
    ghost predicate Valid()
      reads this
    {
      0 <= pos <= |input| && KeysSorted(input)
      && (lastKv.Some? ==> KeyBelowRest(lastKv.value.key, input, pos))
      && (pendingKv.Some? ==> lastKv == pendingKv)
      && (lastKv.None? && pos > 0 ==> RestStops(stopKv, input, pos))
    }

    /** What the scan has yet to yield. */
    ghost function Output(): seq<KeyValue>
      reads this
      requires 0 <= pos <= |input|
    {
      (if pendingKv.Some? then [pendingKv.value] else []) + Resolve(input[pos..], KeyOf(lastKv), stopKv)
    }

    /** `new ScanIter(stopKv, iter)`: a scan yields `Resolve` of the merged records. */
    constructor(stopKv: Option<KeyValue>, input: seq<KeyValue>)
      ensures this.stopKv == stopKv && this.input == input
      ensures pos == 0 && lastKv == None && pendingKv == None
      ensures KeysSorted(input) ==> Valid() && Output() == Resolve(input, None, stopKv)
    {
      this.stopKv := stopKv;
      this.input := input;
      pos := 0;
      lastKv := None;
      pendingKv := None;
    }

    /** `switchToNewKey()`, entered with nothing pending. */
    method SwitchToNewKey()
      requires 0 <= pos <= |input| && pendingKv.None?
      modifies this
      ensures (pos, lastKv, pendingKv) == Switch(input, old(pos), old(lastKv), stopKv)
    {
      if lastKv.Some? && ShouldStop(stopKv, lastKv.value) {
        return;
      }
      while pos < |input|
        invariant old(pos) <= pos <= |input| && pendingKv.None?
        invariant SwitchLoop(input, pos, lastKv, stopKv) == SwitchLoop(input, old(pos), old(lastKv), stopKv)
        decreases |input| - pos
      {
        var curKv := input[pos];
        pos := pos + 1;
        if ShouldStop(stopKv, curKv) {
          return;
        }
        if curKv.op == Put {
          if lastKv.None? {
            lastKv, pendingKv := Some(curKv), Some(curKv);
            return;
          }
          var ret := CompareBytes(lastKv.value.key, curKv.key);
          if ret < 0 {
            lastKv, pendingKv := Some(curKv), Some(curKv);
            return;
          }
        } else {
          if lastKv.None? || CompareBytes(lastKv.value.key, curKv.key) < 0 {
            lastKv := Some(curKv);
          }
        }
      }
    }

    /** `hasNext()`: resolves the next record if none is pending; repeated calls consume nothing more. */
    method HasNext() returns (r: bool)
      requires 0 <= pos <= |input|
      modifies this
      ensures 0 <= pos <= |input|
      ensures r <==> pendingKv.Some?
      ensures old(pendingKv).Some? ==> pos == old(pos) && lastKv == old(lastKv) && pendingKv == old(pendingKv)
      ensures old(pendingKv).None? ==> (pos, lastKv, pendingKv) == Switch(input, old(pos), old(lastKv), stopKv)
      ensures old(Valid()) ==> Valid() && Output() == old(Output()) && (r <==> Output() != [])
    {
      ghost var valid := Valid();
      if pendingKv.None? {
        if valid {
          SwitchResolves(input, pos, lastKv, stopKv);
          var (p, l, pend) := Switch(input, pos, lastKv, stopKv);
          if pend.None? {
            ResolveStopped(input, p, KeyOf(l), stopKv);
          }
        }
        SwitchToNewKey();
      }
      r := pendingKv.Some?;
    }

    /**
     * `next()`: the pending record, resolving one first if none is pending;
     * with none left it returns null (`None`) and forgets `lastKv`.
     */
    method Next() returns (r: Option<KeyValue>)
      requires 0 <= pos <= |input|
      modifies this
      ensures 0 <= pos <= |input|
      ensures old(pendingKv).Some? ==> r == old(pendingKv) && pos == old(pos)
      ensures old(pendingKv).None? ==> var (p, _, pend) := Switch(input, old(pos), old(lastKv), stopKv);
                                      r == pend && pos == p
      ensures lastKv == r && pendingKv == None
      ensures old(Valid()) ==> Valid()
      ensures old(Valid()) && old(Output()) == [] ==> r.None? && Output() == []
      ensures old(Valid()) && old(Output()) != [] ==> r == Some(old(Output())[0]) && Output() == old(Output())[1..]
    {
      ghost var valid := Valid();
      if pendingKv.None? {
        if valid {
          SwitchResolves(input, pos, lastKv, stopKv);
          var (p, _, pend) := Switch(input, pos, lastKv, stopKv);
          if pend.None? {
            ResolveStopped(input, p, None, stopKv);
          }
        }
        SwitchToNewKey();
      }
      lastKv := pendingKv;
      pendingKv := None;
      r := lastKv;
    }
  }

  // ---------------------------------------------------------------------------
  // scan bounds and point reads
  // ---------------------------------------------------------------------------

  /** `ByteUtils.compare(bytes, EMPTY_BYTES) != 0`: the bound is given; the empty array means unbounded. */
  lemma {:induction false} EmptyMeansUnbounded(bytes: seq<Byte>)
    ensures CompareBytes(bytes, []) != 0 <==> bytes != []
  {
    CompareZeroIffEqual(bytes, []);
  }

  /** The record `scan` seeks to for a non-empty start key: the Delete of `start` at the global sequence id. */
  function SeekTarget(start: seq<Byte>, globalSeqId: int): Result<KeyValue>
  {
    CreateDelete(start, globalSeqId)
  }

  /** The stop record for a non-empty end key: the Delete of `end` at `Long.MAX_VALUE`. */
  function StopRecord(end: seq<Byte>): Option<KeyValue>
  {
    if CompareBytes(end, []) != 0 then Some(KeyValue(end, [], Delete, INT64_MAX)) else None
  }

  /** The merged records a scan from `start` reads: all of them, or those at or above the seek target. */
  function Sought(records: seq<KeyValue>, start: seq<Byte>, globalSeqId: int): Result<seq<KeyValue>>
  {
    if CompareBytes(start, []) == 0 then Ok(records)
    else
      var target :- SeekTarget(start, globalSeqId);
      Ok(records[LowerBound(records, target)..])
  }

  /**
   * What a point read returns, from the records a scan from `key` reads:
   * the first record the scan yields, if it has the requested key.
   */
  function GetResult(sought: seq<KeyValue>, key: seq<Byte>): Option<KeyValue>
  {
    var rs := Resolve(sought, None, None);
    if rs != [] && CompareBytes(key, rs[0].key) == 0 then Some(rs[0]) else None
  }

  /**
   * A point read sees the newest version of the key at or below the global
   * sequence id: it returns that version when it is a Put, and nothing when
   * it is a Delete or there is none.
   */
  lemma {:induction false} GetSeesNewestVisible(records: seq<KeyValue>, key: seq<Byte>, globalSeqId: int)
    requires Sorted(records) && key != [] && globalSeqId >= -1
    ensures var s := Sought(records, key, globalSeqId).value;
            GetResult(s, key) == if s != [] && s[0].key == key && s[0].op == Put then Some(s[0]) else None
    ensures var s := Sought(records, key, globalSeqId).value;
            s != [] && s[0].key == key ==>
              s[0].sequenceId <= globalSeqId
              && forall y | y in records && y.key == key && y.sequenceId <= globalSeqId :: y.sequenceId <= s[0].sequenceId
    ensures var s := Sought(records, key, globalSeqId).value;
            (s == [] || s[0].key != key) ==> forall y | y in records && y.key == key :: y.sequenceId > globalSeqId
  {
    EmptyMeansUnbounded(key);
    var target := KeyValue(key, [], Delete, globalSeqId);
    var lb := LowerBound(records, target);
    var s := records[lb..];
    assert Sought(records, key, globalSeqId) == Ok(s);
    SeekLands(records, target);
    SortedKeys(records);
    assert KeysSorted(s);
    if s != [] {
      assert s[0] == records[lb] && KvLessEq(target, records[lb]);
      KvLessMeans(target, s[0]);
      EqualsIgnoresValue(target, s[0]);
      KvTotal(target, s[0]);
      CompareZeroIffEqual(key, s[0].key);
      assert KeyLeq(key, s[0].key);
      var rs := Resolve(s, None, None);
      if s[0].op == Put {
        assert rs[0] == s[0];
        CompareZeroIffEqual(key, s[0].key);
      } else if rs != [] {
        ResolveIncreasingFrom(s);
        CompareZeroIffEqual(key, rs[0].key);
        if s[0].key == key {
          assert CompareBytes(key, rs[0].key) < 0;
        } else {
          CompareZeroIffEqual(key, s[0].key);
          KeyLeqTransitive(key, s[0].key, rs[0].key);
        }
      }
      if s[0].key != key {
        CompareZeroIffEqual(key, s[0].key);
      }
    }
    forall y | y in records && y.key == key
      ensures (s == [] || s[0].key != key) ==> y.sequenceId > globalSeqId
      ensures s != [] && s[0].key == key && y.sequenceId <= globalSeqId ==> y.sequenceId <= s[0].sequenceId
    {
      var i :| 0 <= i < |records| && records[i] == y;
      KvLessMeans(y, target);
      CompareZeroIffEqual(key, key);
      if y.sequenceId <= globalSeqId {
        assert !KvLess(y, target);
        assert lb <= i;
        assert y == s[i - lb];
        if s[0].key == key {
          KvLessMeans(s[0], y);
          EqualsIgnoresValue(s[0], y);
        } else {
          assert KeyLeq(s[0].key, y.key);
          KeyLeqTransitive(key, s[0].key, key);
        }
      }
    }
  }

  /** After a first record that is a Delete, everything yielded has a greater key. */
  lemma {:induction false} ResolveIncreasingFrom(s: seq<KeyValue>)
    requires KeysSorted(s) && s != [] && s[0].op == Delete
    ensures forall x | x in Resolve(s, None, None) :: CompareBytes(s[0].key, x.key) < 0
  {
    TailSorted(s);
    ResolveAbove(s[1..], Some(s[0].key), None);
  }

  // ---------------------------------------------------------------------------
  // MStore
  // ---------------------------------------------------------------------------

  /**
   * The part of `MStore` the read path and the version counter use:
   * `globalSeqId`, the highest sequence id applied to the memstore.
   */
  class MStore {
    var globalSeqId: int

    constructor()
      ensures globalSeqId == 0
    {
      globalSeqId := 0;
    }

    /**
     * `scan(start, end, filter)` over `records`, what the merge of the
     * memstore and disk iterators yields: a non-empty start seeks to the
     * Delete of `start` at the global sequence id, a non-empty end stops
     * at the Delete of `end` at `Long.MAX_VALUE`.
     */
    method Scan(records: seq<KeyValue>, start: seq<Byte>, end: seq<Byte>) returns (r: Result<ScanIter>)
      ensures r.Err? <==> Sought(records, start, globalSeqId).Err?
      ensures r.Err? ==> r.error == AssertionFailed
      ensures r.Ok? ==> fresh(r.value) && r.value.input == Sought(records, start, globalSeqId).value
                        && r.value.stopKv == StopRecord(end)
                        && r.value.pos == 0 && r.value.lastKv == None && r.value.pendingKv == None
    {
      var input := records;
      if CompareBytes(start, []) != 0 {
        var target :- SeekTarget(start, globalSeqId);
        input := records[LowerBound(records, target)..];
      }
      var stopKv: Option<KeyValue> := None;
      if CompareBytes(end, []) != 0 {
        stopKv := Some(KeyValue(end, [], Delete, INT64_MAX));
      }
      var it := new ScanIter(stopKv, input);
      r := Ok(it);
    }

    /**
     * `scanGet(key)` (and `bfGet(key)`, which reads the records that
     * survive the bloom filters of the key): the first record a scan from
     * `key` yields, when it has that key.
     */
    method ScanGet(records: seq<KeyValue>, key: seq<Byte>) returns (r: Result<Option<KeyValue>>)
      requires Sorted(records)
      ensures r.Err? <==> Sought(records, key, globalSeqId).Err?
      ensures r.Ok? ==> r.value == GetResult(Sought(records, key, globalSeqId).value, key)
    {
      var it :- Scan(records, key, []);
      ghost var sought := Sought(records, key, globalSeqId).value;
      EmptyMeansUnbounded([]);
      SoughtSorted(records, key, globalSeqId);
      assert sought[0..] == sought;
      assert it.Valid() && it.Output() == Resolve(sought, None, None);
      var has := it.HasNext();
      if has {
        var kv := it.Next();
        if CompareBytes(key, kv.value.key) == 0 {
          return Ok(kv);
        }
      }
      r := Ok(None);
    }

    /**
     * `updateGlobalVersion(seq)` as written: the `do`/`while` loop repeats
     * while the compare-and-set SUCCEEDS.  `others[i]` is the version
     * another thread publishes between this thread's read and its CAS in
     * round `i` (a value at or below the counter is no write).  A write by
     * another thread after a successful CAS and before the next read is not
     * modelled; Java would then read that larger value and return it instead
     * of `version`.
     */
    method UpdateGlobalVersionAsWritten(version: int, others: seq<int>) returns (r: int)
      modifies this
      ensures (r, globalSeqId) == AsWritten(old(globalSeqId), version, others)
    {
      var round := 0;
      while true
        invariant 0 <= round <= 1
        invariant round == 0 ==> globalSeqId == old(globalSeqId)
        invariant round == 1 ==> globalSeqId == version && AsWritten(old(globalSeqId), version, others) == (version, version)
        decreases 1 - round
      {
        var now := globalSeqId;
        if now >= version {
          return now;
        }
        Interfere(others, round);
        if globalSeqId != now {
          break;
        }
        globalSeqId := version;
        round := round + 1;
      }
      r := version;
    }

    /** Another thread's update between the read and the CAS of round `i`. */
    method Interfere(others: seq<int>, i: int)
      modifies this
      ensures globalSeqId == Publish(old(globalSeqId), others, i)
    {
      globalSeqId := Publish(globalSeqId, others, i);
    }

    /**
     * `updateGlobalVersion(seq)` as evidently intended: retry while the CAS
     * FAILS, so that the counter ends at the maximum of itself and `version`.
     */
    method UpdateGlobalVersion(version: int, others: seq<int>) returns (r: int)
      modifies this
      ensures (r, globalSeqId) == Intended(old(globalSeqId), version, others)
    {
      var i := 0;
      while true
        invariant 0 <= i
        invariant Intended(old(globalSeqId), version, others) == Intended(globalSeqId, version, others[Min(i, |others|)..])
        decreases |others| - i
      {
        var now := globalSeqId;
        if now >= version {
          return now;
        }
        Interfere(others, i);
        if globalSeqId == now {
          globalSeqId := version;
          return version;
        }
        assert others[Min(i, |others|)..][1..] == others[Min(i + 1, |others|)..];
        i := i + 1;
      }
    }
  }

  function Min(a: int, b: int): int
  {
    if a <= b then a else b
  }

  /** What a scan reads of sorted records is key-sorted. */
  lemma {:induction false} SoughtSorted(records: seq<KeyValue>, start: seq<Byte>, globalSeqId: int)
    requires Sorted(records) && Sought(records, start, globalSeqId).Ok?
    ensures KeysSorted(Sought(records, start, globalSeqId).value)
  {
    SortedKeys(records);
  }

  /** The counter after another thread publishes `others[i]`, if there is one: versions only grow. */
  function Publish(counter: int, others: seq<int>, i: int): int
  {
    if 0 <= i < |others| && others[i] > counter then others[i] else counter
  }

  /** The returned value and the final counter of `updateGlobalVersion` as written. */
  function AsWritten(counter: int, version: int, others: seq<int>): (int, int)
  {
    if counter >= version then (counter, counter)
    else
      var c := Publish(counter, others, 0);
      if c == counter then (version, version) else (version, c)
  }

  /** The returned value and the final counter with the loop retrying on a failed CAS. */
  function Intended(counter: int, version: int, others: seq<int>): (int, int)
    decreases |others|
  {
    if counter >= version then (counter, counter)
    else
      var c := Publish(counter, others, 0);
      if c == counter then (version, version) else Intended(c, version, others[1..])
  }

  /**
   * The intended update publishes its version: the counter ends at or above
   * both `version` and where it started, the value returned is the counter, and
   * without contention it is exactly the larger of the two.
   */
  lemma {:induction false} IntendedPublishes(counter: int, version: int, others: seq<int>)
    ensures var (r, c) := Intended(counter, version, others);
            r == c && c >= version && c >= counter
    ensures (forall i | 0 <= i < |others| :: others[i] <= counter) ==>
              Intended(counter, version, others).1 == if counter >= version then counter else version
    decreases |others|
  {
    if counter < version {
      var c := Publish(counter, others, 0);
      if c != counter {
        IntendedPublishes(c, version, others[1..]);
      }
    }
  }

  /** Without contention the code as written does what is intended. */
  lemma {:induction false} AsWrittenUncontended(counter: int, version: int, others: seq<int>)
    requires others == [] || others[0] <= counter
    ensures AsWritten(counter, version, others) == Intended(counter, version, others)
  {
  }

  /**
   * Under contention it loses the update: with the counter at 5, a caller
   * publishing 10 reads 5, another thread publishes 7 before the caller's
   * CAS, the CAS fails and ends the loop, and the caller gets 10 back while
   * the counter stays at 7.
   */
  lemma {:induction false} AsWrittenLosesUpdate()
    ensures AsWritten(5, 10, [7]) == (10, 7)
    ensures Intended(5, 10, [7]) == (10, 10)
  {
  }
}
