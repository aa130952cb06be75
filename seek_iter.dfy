/**
 * The `SeekIter` interface the merge iterators are built from: an iterator
 * over records in the record order whose `seekTo(kv)` moves it to the
 * smallest record at or above `kv`.  A sub-iterator is modelled by the
 * records it ranges over and how many of them it has returned; this is also
 * exactly `MemStore.IteratorWrapper` over the values of a sorted map.
 */
module SeekIters {
  import opened KeyValues

  /**
   * A sub-iterator: the records it ranges over, in order, and the next
   * position.  The bookkeeping of a merge does not depend on what the
   * records are, so the element type is a parameter.
   */
  datatype Cursor<T> = Cursor(items: seq<T>, pos: nat)
  {
    /** `hasNext()`. */
    predicate HasNext()
    {
      pos < |items|
    }

    /** The records `next()` has yet to return. */
    function Rest(): seq<T>
    {
      if pos <= |items| then items[pos..] else []
    }
  }

  /** What every source promises: sorted records and a position inside them. */
  predicate SortedCursor(c: Cursor<KeyValue>)
  {
    c.pos <= |c.items| && Sorted(c.items)
  }

  /** `IteratorWrapper(sortedMap)`: an iterator over the map's values from the start. */
  function Wrap(values: seq<KeyValue>): (c: Cursor<KeyValue>)
    ensures c.Rest() == values && (c.HasNext() <==> values != [])
  {
    Cursor(values, 0)
  }

  /** `next()`: the record at the position, which then moves on by one. */
  function Advance<T>(c: Cursor<T>): (r: (T, Cursor<T>))
    requires c.HasNext()
    ensures [r.0] + r.1.Rest() == c.Rest()
    ensures r.1.items == c.items && r.1.pos == c.pos + 1
  {
    (c.items[c.pos], Cursor(c.items, c.pos + 1))
  }

  /** How many leading records lie below `target`: where a seek lands. */
  function LowerBound(items: seq<KeyValue>, target: KeyValue): (r: nat)
    ensures r <= |items|
  {
    if items == [] || !KvLess(items[0], target) then 0 else 1 + LowerBound(items[1..], target)
  }

  /** `seekTo(target)`: the iterator restarts at the smallest record at or above `target`. */
  function SeekTo(c: Cursor<KeyValue>, target: KeyValue): Cursor<KeyValue>
  {
    Cursor(c.items, LowerBound(c.items, target))
  }

  /**
   * On sorted records the seek lands where it should: every record before
   * the new position is below the target and every record from it on is at
   * or above it.
   */
  lemma {:induction false} SeekLands(items: seq<KeyValue>, target: KeyValue)
    requires Sorted(items)
    ensures forall i | 0 <= i < LowerBound(items, target) :: KvLess(items[i], target)
    ensures forall i | LowerBound(items, target) <= i < |items| :: KvLessEq(target, items[i])
  {
    if items != [] && KvLess(items[0], target) {
      assert Sorted(items[1..]);
      SeekLands(items[1..], target);
      forall i | 1 <= i < LowerBound(items, target)
        ensures KvLess(items[i], target)
      {
        assert items[i] == items[1..][i - 1];
      }
      forall i | LowerBound(items, target) <= i < |items|
        ensures KvLessEq(target, items[i])
      {
        assert items[i] == items[1..][i - 1];
      }
    } else if items != [] {
      forall i | 0 <= i < |items|
        ensures KvLessEq(target, items[i])
      {
        KvTotal(items[0], target);
        KvAntisymmetric(items[0], target);
        KvTransitive(target, items[0], items[i]);
        EqualsIgnoresValue(items[0], target);
      }
    }
  }

  /** After a seek, the records still to come are exactly those at or above the target. */
  lemma {:induction false} SeekRest(c: Cursor<KeyValue>, target: KeyValue)
    requires SortedCursor(c)
    ensures SortedCursor(SeekTo(c, target))
    ensures forall x | x in SeekTo(c, target).Rest() :: KvLessEq(target, x)
    ensures forall i | 0 <= i < |c.items| && KvLessEq(target, c.items[i]) :: c.items[i] in SeekTo(c, target).Rest()
  {
    SeekLands(c.items, target);
    var p := LowerBound(c.items, target);
    forall i | 0 <= i < |c.items| && KvLessEq(target, c.items[i])
      ensures c.items[i] in SeekTo(c, target).Rest()
    {
      var x := c.items[i];
      if i < p {
        KvAntisymmetric(x, target);
        assert false;
      }
      assert c.items[i] == c.items[p..][i - p];
    }
  }
}
