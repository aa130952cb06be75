/**
 * `DiskStore`: the live and the compacted disk files with their
 * bookkeeping, the merging iterator `MultiIter` over several sorted
 * sub-iterators, and the flusher and compactor that write new files and
 * swap them in.
 */
module DiskStores {
  import opened Wrappers
  import opened ByteUtils
  import opened KeyValues
  import opened SeekIters
  import opened DiskFiles
  import DiskFileWriters

  // ---------------------------------------------------------------------------
  // MultiIter: the queue and what is still to come
  // ---------------------------------------------------------------------------

  /**
   * An entry of the priority queue: the head `kv` taken from sub-iterator
   * `src`.  The bookkeeping below does not depend on the element type; only
   * the ordering lemmas further down are about records.
   */
  datatype IterNode<T> = IterNode(kv: T, src: nat)

  /** The records of the queue's entries. */
  function Kvs<T(==)>(queue: seq<IterNode<T>>): (r: seq<T>)
    ensures |r| == |queue| && forall j | 0 <= j < |queue| :: r[j] == queue[j].kv
  {
    seq(|queue|, j requires 0 <= j < |queue| => queue[j].kv)
  }

  /** The records a sub-iterator (or a null one) has yet to return. */
  function SourceRest<T(==)>(it: Option<Cursor<T>>): multiset<T>
  {
    match it
    case None => multiset{}
    case Some(c) => multiset(c.Rest())
  }

  /** The records the sub-iterators have yet to return, all of them together. */
  function Unread<T(==)>(iters: seq<Option<Cursor<T>>>): multiset<T>
  {
    if iters == [] then multiset{} else SourceRest(iters[0]) + Unread(iters[1..])
  }

  /** What the merge has yet to return: the queued heads and the records behind them. */
  function Outstanding<T(==)>(iters: seq<Option<Cursor<T>>>, queue: seq<IterNode<T>>): multiset<T>
  {
    multiset(Kvs(queue)) + Unread(iters)
  }

  /** The queue holds an entry taken from sub-iterator `i`. */
  ghost predicate HasNode<T>(queue: seq<IterNode<T>>, i: int)
  {
    exists j :: 0 <= j < |queue| && queue[j].src == i
  }

  /** A queue entry is the record its sub-iterator returned last, from one of the first `n` sub-iterators. */
  predicate NodeOk<T(==)>(iters: seq<Option<Cursor<T>>>, node: IterNode<T>, n: int)
  {
    node.src < n && node.src < |iters| && iters[node.src].Some?
    && 1 <= iters[node.src].value.pos <= |iters[node.src].value.items|
    && iters[node.src].value.items[iters[node.src].value.pos - 1] == node.kv
  }

  /**
   * The queue after the first `n` sub-iterators have been polled for their
   * heads: no sub-iterator is past its end, the queue holds at most one
   * entry per sub-iterator, each entry is what its sub-iterator returned
   * last, and each of the first `n` sub-iterators that still has records
   * has an entry, except perhaps `except`, whose entry is being replaced.
   */
  ghost predicate Shaped<T>(iters: seq<Option<Cursor<T>>>, queue: seq<IterNode<T>>, n: int, except: int)
  {
    (forall i | 0 <= i < |iters| && iters[i].Some? :: iters[i].value.pos <= |iters[i].value.items|)
    && (forall j | 0 <= j < |queue| :: NodeOk(iters, queue[j], n))
    && (forall j, k | 0 <= j < k < |queue| :: queue[j].src != queue[k].src)
    && (forall i | 0 <= i < n && i < |iters| && i != except && iters[i].Some? && iters[i].value.HasNext() :: HasNode(queue, i))
  }

  /** `if (iter != null && iter.hasNext()) queue.add(new IterNode(iter.next(), iter))` for sub-iterator `i`. */
  function TakeHead<T(==)>(iters: seq<Option<Cursor<T>>>, queue: seq<IterNode<T>>, i: int): (seq<Option<Cursor<T>>>, seq<IterNode<T>>)
    requires 0 <= i < |iters|
  {
    match iters[i]
    case None => (iters, queue)
    case Some(c) =>
      if c.HasNext() then
        var (kv, rest) := Advance(c);
        (iters[i := Some(rest)], queue + [IterNode(kv, i)])
      else (iters, queue)
  }

  /** `poll()`: the entry at `m` leaves the queue; its sub-iterator's next record, if any, takes its place. */
  function Poll<T(==)>(iters: seq<Option<Cursor<T>>>, queue: seq<IterNode<T>>, m: int): (seq<Option<Cursor<T>>>, seq<IterNode<T>>)
    requires 0 <= m < |queue| && queue[m].src < |iters|
  {
    TakeHead(iters, queue[..m] + queue[m + 1..], queue[m].src)
  }

  // ---------------------------------------------------------------------------
  // MultiIter: the bookkeeping lemmas
  // ---------------------------------------------------------------------------

  /** Membership in a multiset union, one side at a time. */
  lemma InUnion<T>(a: multiset<T>, b: multiset<T>, x: T)
    requires x in a
    ensures x in a + b && x in b + a
  {
  }

  lemma UnionMember<T>(a: multiset<T>, b: multiset<T>, x: T)
    requires x in a + b
    ensures x in a || x in b
  {
  }

  /**
   * Multiset algebra on plain multisets.  Stating these steps over
   * variables keeps the solver from unfolding the definitions they are
   * applied to.
   */
  lemma Associate<T>(a: multiset<T>, b: multiset<T>, c: multiset<T>)
    ensures a + (b + c) == (a + b) + c
  {
  }

  lemma Swap<T>(a: multiset<T>, b: multiset<T>, u: multiset<T>)
    ensures (b + u) + a == (a + u) + b
  {
  }

  lemma Rearrange<T>(a: multiset<T>, u: multiset<T>, u2: multiset<T>, o: multiset<T>, n: multiset<T>)
    requires u2 + o == u + n
    ensures (a + u2) + o == (a + u) + n
  {
    calc {
      (a + u2) + o;
      a + (u2 + o);
      a + (u + n);
      (a + u) + n;
    }
  }

  lemma Moved<T>(k: multiset<T>, x: multiset<T>, u2: multiset<T>, u: multiset<T>, o: multiset<T>, n: multiset<T>)
    requires u2 + o == u + n && o == x + n
    ensures (k + x) + u2 == k + u
  {
    calc {
      (u2 + x) + n;
      u2 + (x + n);
      u2 + o;
      u + n;
    }
    forall y
      ensures (u2 + x)[y] == u[y]
    {
      assert ((u2 + x) + n)[y] == (u + n)[y];
    }
    assert u2 + x == u;
    Associate(k, x, u2);
  }

  lemma Combine<T>(k2: multiset<T>, k: multiset<T>, ub: multiset<T>, us: multiset<T>, a: multiset<T>, b: multiset<T>)
    requires k + ub == us && k2 + a == k + b
    ensures k2 + (ub + a) == us + b
  {
    calc {
      k2 + (ub + a);
      (k2 + a) + ub;
      (k + b) + ub;
      (k + ub) + b;
    }
  }

  lemma Extend<T>(k: multiset<T>, x: multiset<T>, ub: multiset<T>, a: multiset<T>, us: multiset<T>, s: multiset<T>)
    requires k + ub == us && s == x + a
    ensures (k + x) + (ub + a) == us + s
  {
  }

  /** What two runs of sub-iterators have yet to return, side by side. */
  lemma {:induction false} UnreadAppend<T>(a: seq<Option<Cursor<T>>>, b: seq<Option<Cursor<T>>>)
    ensures Unread(a + b) == Unread(a) + Unread(b)
    decreases |a|
  {
    if a != [] {
      assert (a + b)[0] == a[0] && (a + b)[1..] == a[1..] + b;
      UnreadAppend(a[1..], b);
      Associate(SourceRest(a[0]), Unread(a[1..]), Unread(b));
    } else {
      assert a + b == b;
    }
  }

  lemma {:induction false} UnreadSnoc<T>(iters: seq<Option<Cursor<T>>>, i: int)
    requires 0 <= i < |iters|
    ensures Unread(iters[..i + 1]) == Unread(iters[..i]) + SourceRest(iters[i])
  {
    assert iters[..i + 1] == iters[..i] + [iters[i]];
    UnreadAppend(iters[..i], [iters[i]]);
    assert [iters[i]][1..] == [];
  }

  lemma {:induction false} UnreadAll<T>(iters: seq<Option<Cursor<T>>>)
    ensures Unread(iters[..|iters|]) == Unread(iters)
  {
    assert iters[..|iters|] == iters;
  }

  /** Replacing one sub-iterator changes what is unread by the difference of their remainders. */
  lemma {:induction false} UnreadUpdate<T>(iters: seq<Option<Cursor<T>>>, i: int, it: Option<Cursor<T>>)
    requires 0 <= i < |iters|
    ensures Unread(iters[i := it]) + SourceRest(iters[i]) == Unread(iters) + SourceRest(it)
    decreases |iters|
  {
    var updated := iters[i := it];
    if i == 0 {
      assert updated[1..] == iters[1..];
      Swap(SourceRest(iters[0]), SourceRest(it), Unread(iters[1..]));
    } else {
      assert updated[1..] == iters[1..][i - 1 := it];
      assert updated[0] == iters[0] && iters[1..][i - 1] == iters[i];
      UnreadUpdate(iters[1..], i - 1, it);
      Rearrange(SourceRest(iters[0]), Unread(iters[1..]), Unread(updated[1..]), SourceRest(iters[i]), SourceRest(it));
    }
  }

  /** A record that is unread comes from some sub-iterator. */
  lemma {:induction false} UnreadMember<T>(iters: seq<Option<Cursor<T>>>, x: T)
    requires x in Unread(iters)
    ensures exists i :: 0 <= i < |iters| && x in SourceRest(iters[i])
    decreases |iters|
  {
    UnionMember(SourceRest(iters[0]), Unread(iters[1..]), x);
    if x !in SourceRest(iters[0]) {
      UnreadMember(iters[1..], x);
      var i :| 0 <= i < |iters| - 1 && x in SourceRest(iters[1..][i]);
      assert iters[1..][i] == iters[i + 1];
    }
  }

  /** Every record some sub-iterator has yet to return is unread. */
  lemma {:induction false} UnreadHas<T>(iters: seq<Option<Cursor<T>>>, i: int, x: T)
    requires 0 <= i < |iters| && x in SourceRest(iters[i])
    ensures x in Unread(iters)
  {
    UnreadUpdate(iters, i, None);
    InUnion(SourceRest(iters[i]), Unread(iters[i := None]), x);
    assert Unread(iters) + SourceRest(None) == Unread(iters);
  }

  /** Taking a head moves one record from its sub-iterator into the queue. */
  lemma {:induction false} TakeHeadOutstanding<T>(iters: seq<Option<Cursor<T>>>, queue: seq<IterNode<T>>, i: int)
    requires 0 <= i < |iters|
    ensures Outstanding(TakeHead(iters, queue, i).0, TakeHead(iters, queue, i).1) == Outstanding(iters, queue)
  {
    match iters[i]
    case None =>
    case Some(c) =>
      if c.HasNext() {
        var (kv, rest) := Advance(c);
        assert Kvs(queue + [IterNode(kv, i)]) == Kvs(queue) + [kv];
        UnreadUpdate(iters, i, Some(rest));
        assert multiset(c.Rest()) == multiset{kv} + multiset(rest.Rest());
        Moved(multiset(Kvs(queue)), multiset{kv}, Unread(iters[i := Some(rest)]), Unread(iters),
              SourceRest(iters[i]), SourceRest(Some(rest)));
      }
  }

  /** Taking the head of sub-iterator `i`, which has no entry, gives it one if it has a record. */
  lemma {:induction false} TakeHeadKeeps<T>(iters: seq<Option<Cursor<T>>>, queue: seq<IterNode<T>>, i: int, n: int)
    requires 0 <= i < n && i < |iters|
    requires Shaped(iters, queue, n, i) && !HasNode(queue, i)
    ensures Shaped(TakeHead(iters, queue, i).0, TakeHead(iters, queue, i).1, n, -1)
    ensures |TakeHead(iters, queue, i).0| == |iters|
    ensures forall k | 0 <= k < |iters| && k != i :: TakeHead(iters, queue, i).0[k] == iters[k]
    ensures TakeHead(iters, queue, i).0[i].Some? <==> iters[i].Some?
    ensures iters[i].Some? ==> TakeHead(iters, queue, i).0[i].value.items == iters[i].value.items
  {
    match iters[i]
    case None =>
    case Some(c) =>
      if c.HasNext() {
        var (kv, rest) := Advance(c);
        PushHeadKeeps(iters, queue, i, n, c, kv, rest);
      }
  }

  /** Sub-iterator `i` returns `kv` and goes on as `rest`; its entry joins the queue. */
  lemma {:induction false} PushHeadKeeps<T>(iters: seq<Option<Cursor<T>>>, queue: seq<IterNode<T>>, i: int, n: int,
                                           c: Cursor<T>, kv: T, rest: Cursor<T>)
    requires 0 <= i < n && i < |iters| && iters[i] == Some(c)
    requires Shaped(iters, queue, n, i) && !HasNode(queue, i)
    requires c.HasNext() && (kv, rest) == Advance(c)
    ensures Shaped(iters[i := Some(rest)], queue + [IterNode(kv, i)], n, -1)
  {
    var iters', queue' := iters[i := Some(rest)], queue + [IterNode(kv, i)];
    forall j | 0 <= j < |queue'|
      ensures NodeOk(iters', queue'[j], n)
    {
      if j < |queue| {
        assert queue'[j] == queue[j];
        assert queue[j].src != i;
      }
    }
    forall k | 0 <= k < n && k < |iters'| && iters'[k].Some? && iters'[k].value.HasNext()
      ensures HasNode(queue', k)
    {
      if k == i {
        assert queue'[|queue|].src == i;
      } else {
        var j :| 0 <= j < |queue| && queue[j].src == k;
        assert queue'[j].src == k;
      }
    }
  }

  /** Before sub-iterator `n` is polled, the shape holds with it as the exception. */
  lemma {:induction false} Widen<T>(iters: seq<Option<Cursor<T>>>, queue: seq<IterNode<T>>, n: int)
    requires 0 <= n < |iters| && Shaped(iters, queue, n, -1)
    ensures Shaped(iters, queue, n + 1, n) && !HasNode(queue, n)
  {
    forall j | 0 <= j < |queue|
      ensures NodeOk(iters, queue[j], n + 1) && queue[j].src != n
    {
      assert NodeOk(iters, queue[j], n);
    }
  }

  /** The sub-iterator being replaced has no entry, so replacing it keeps the shape. */
  lemma {:induction false} ReplaceKeeps<T>(iters: seq<Option<Cursor<T>>>, queue: seq<IterNode<T>>, n: int, e: int, it: Option<Cursor<T>>)
    requires 0 <= e < |iters| && Shaped(iters, queue, n, e) && !HasNode(queue, e)
    requires it.Some? ==> it.value.pos <= |it.value.items|
    ensures Shaped(iters[e := it], queue, n, e)
  {
    var iters' := iters[e := it];
    forall j | 0 <= j < |queue|
      ensures NodeOk(iters', queue[j], n)
    {
      assert NodeOk(iters, queue[j], n) && queue[j].src != e;
    }
  }

  /** A concatenation splits back into its two parts. */
  lemma {:induction false} AppendParts<T>(a: seq<T>, b: seq<T>)
    ensures (a + b)[..|a|] == a && (a + b)[|a|..] == b
  {
  }

  /** Two sequences that agree from `i` on agree at `i`. */
  lemma {:induction false} SuffixHead<T>(a: seq<T>, b: seq<T>, i: int)
    requires 0 <= i < |a| == |b| && a[i..] == b[i..]
    ensures a[i] == b[i] && a[i := b[i]] == a
  {
    assert a[i] == a[i..][0] == b[i..][0] == b[i];
  }

  /** Replacing one sub-iterator leaves every later one where it was. */
  lemma {:induction false} UpdateSuffix<T>(a: seq<T>, b: seq<T>, i: int)
    requires 0 <= i < |a| == |b| && forall k | 0 <= k < |a| && k != i :: a[k] == b[k]
    ensures a[i + 1..] == b[i + 1..]
  {
  }

  /** Removing the entry at `m` leaves its sub-iterator as the exception, and its record out of the queue. */
  lemma {:induction false} RemoveKeeps<T>(iters: seq<Option<Cursor<T>>>, queue: seq<IterNode<T>>, m: int)
    requires Shaped(iters, queue, |iters|, -1) && 0 <= m < |queue|
    ensures queue[m].src < |iters|
    ensures Shaped(iters, queue[..m] + queue[m + 1..], |iters|, queue[m].src)
    ensures !HasNode(queue[..m] + queue[m + 1..], queue[m].src)
  {
    var q := queue[..m] + queue[m + 1..];
    assert NodeOk(iters, queue[m], |iters|);
    forall j | 0 <= j < |q|
      ensures NodeOk(iters, q[j], |iters|) && q[j].src != queue[m].src
    {
      if j < m {
        assert q[j] == queue[j];
      } else {
        assert q[j] == queue[j + 1];
      }
    }
    forall j, k | 0 <= j < k < |q|
      ensures q[j].src != q[k].src
    {
      var j' := if j < m then j else j + 1;
      var k' := if k < m then k else k + 1;
      assert q[j] == queue[j'] && q[k] == queue[k'];
    }
    forall i | 0 <= i < |iters| && i != queue[m].src && iters[i].Some? && iters[i].value.HasNext()
      ensures HasNode(q, i)
    {
      var j :| 0 <= j < |queue| && queue[j].src == i;
      if j < m {
        assert q[j] == queue[j];
      } else {
        assert q[j - 1] == queue[j];
      }
    }
  }

  /** The record of the removed entry is what leaves the queue. */
  lemma {:induction false} RemoveOutstanding<T>(iters: seq<Option<Cursor<T>>>, queue: seq<IterNode<T>>, m: int)
    requires 0 <= m < |queue|
    ensures Outstanding(iters, queue[..m] + queue[m + 1..]) + multiset{queue[m].kv} == Outstanding(iters, queue)
  {
    assert Kvs(queue) == Kvs(queue[..m]) + [queue[m].kv] + Kvs(queue[m + 1..]);
    assert Kvs(queue[..m] + queue[m + 1..]) == Kvs(queue[..m]) + Kvs(queue[m + 1..]);
  }

  /** A record in the queue is the record of one of its entries. */
  lemma {:induction false} QueuedMember<T>(queue: seq<IterNode<T>>, x: T)
    requires x in multiset(Kvs(queue))
    ensures exists j :: 0 <= j < |queue| && queue[j].kv == x
  {
    assert x in Kvs(queue);
  }

  /** With the shape in place, the queue is empty exactly when nothing is left to return. */
  lemma {:induction false} EmptyQueueMeansDone<T>(iters: seq<Option<Cursor<T>>>, queue: seq<IterNode<T>>)
    requires Shaped(iters, queue, |iters|, -1)
    ensures queue == [] <==> Outstanding(iters, queue) == multiset{}
  {
    if queue == [] && Outstanding(iters, queue) != multiset{} {
      var x :| x in Outstanding(iters, queue);
      UnreadMember(iters, x);
      var i :| 0 <= i < |iters| && x in SourceRest(iters[i]);
      assert iters[i].value.HasNext();
      assert false;
    }
    if queue != [] {
      InUnion(multiset(Kvs(queue)), Unread(iters), queue[0].kv);
    }
  }

  /** Taking a head changes only that sub-iterator, whose record moves into the queue. */
  lemma {:induction false} TakeHeadMoves<T>(iters: seq<Option<Cursor<T>>>, queue: seq<IterNode<T>>, i: int)
    requires 0 <= i < |iters|
    ensures |TakeHead(iters, queue, i).0| == |iters|
    ensures TakeHead(iters, queue, i).0 == iters[i := TakeHead(iters, queue, i).0[i]]
    ensures multiset(Kvs(TakeHead(iters, queue, i).1)) + SourceRest(TakeHead(iters, queue, i).0[i])
            == multiset(Kvs(queue)) + SourceRest(iters[i])
  {
    match iters[i]
    case None =>
    case Some(c) =>
      if c.HasNext() {
        var (kv, rest) := Advance(c);
        assert Kvs(queue + [IterNode(kv, i)]) == Kvs(queue) + [kv];
        assert multiset(c.Rest()) == multiset{kv} + multiset(rest.Rest());
        Associate(multiset(Kvs(queue)), multiset{kv}, multiset(rest.Rest()));
      }
  }

  /** One round of the loading loop, as the loop invariant sees it. */
  lemma {:induction false} LoadedStep<T>(before: seq<Option<Cursor<T>>>, queued: seq<IterNode<T>>,
                                         after: seq<Option<Cursor<T>>>, queue: seq<IterNode<T>>,
                                         sources: seq<Option<Cursor<T>>>, i: int)
    requires 0 <= i < |before| == |sources|
    requires before[i] == sources[i]
    requires multiset(Kvs(queued)) + Unread(before[..i]) == Unread(sources[..i])
    requires (after, queue) == TakeHead(before, queued, i)
    ensures multiset(Kvs(queue)) + Unread(after[..i + 1]) == Unread(sources[..i + 1])
  {
    TakeHeadMoves(before, queued, i);
    assert after[..i] == before[..i];
    UnreadSnoc(after, i);
    UnreadSnoc(sources, i);
    Combine(multiset(Kvs(queue)), multiset(Kvs(queued)), Unread(before[..i]), Unread(sources[..i]),
            SourceRest(after[i]), SourceRest(sources[i]));
  }

  // ---------------------------------------------------------------------------
  // MultiIter: the order of what comes out
  // ---------------------------------------------------------------------------

  /** Every non-null sub-iterator is sorted and not past its end. */
  predicate AllSorted(iters: seq<Option<Cursor<KeyValue>>>)
  {
    forall i | 0 <= i < |iters| && iters[i].Some? :: SortedCursor(iters[i].value)
  }

  /** The invariant of a merge iterator between calls. */
  ghost predicate Loaded(iters: seq<Option<Cursor<KeyValue>>>, queue: seq<IterNode<KeyValue>>)
  {
    AllSorted(iters) && Shaped(iters, queue, |iters|, -1)
  }

  /** Taking a head moves a position forward within the same sorted records. */
  lemma {:induction false} TakeHeadSorted(iters: seq<Option<Cursor<KeyValue>>>, queue: seq<IterNode<KeyValue>>, i: int)
    requires 0 <= i < |iters| && AllSorted(iters)
    ensures AllSorted(TakeHead(iters, queue, i).0)
  {
  }

  /**
   * The invariant of the loading loop after `i` sub-iterators: they have
   * been polled for their heads, what is queued or unread among them is
   * what `sources` holds among its first `i`, and the others are still
   * those of `rest`.
   */
  ghost predicate Loading(iters: seq<Option<Cursor<KeyValue>>>, queue: seq<IterNode<KeyValue>>,
                          sources: seq<Option<Cursor<KeyValue>>>, rest: seq<Option<Cursor<KeyValue>>>, i: int)
  {
    0 <= i <= |iters| == |sources| == |rest| && iters[i..] == rest[i..]
    && AllSorted(iters) && Shaped(iters, queue, i, -1)
    && multiset(Kvs(queue)) + Unread(iters[..i]) == Unread(sources[..i])
  }

  /**
   * One round of the loading loop: sub-iterator `i` is replaced by
   * `sources[i]` (itself, in the constructor; its re-positioned self, in a
   * seek) and its head is taken.
   */
  lemma {:induction false} LoadStep(iters: seq<Option<Cursor<KeyValue>>>, queue: seq<IterNode<KeyValue>>,
                                    sources: seq<Option<Cursor<KeyValue>>>, rest: seq<Option<Cursor<KeyValue>>>, i: int,
                                    after: seq<Option<Cursor<KeyValue>>>, queue2: seq<IterNode<KeyValue>>)
    requires Loading(iters, queue, sources, rest, i) && i < |iters| && AllSorted(sources)
    requires (after, queue2) == TakeHead(iters[i := sources[i]], queue, i)
    ensures Loading(after, queue2, sources, rest, i + 1)
  {
    var mid := iters[i := sources[i]];
    Widen(iters, queue, i);
    ReplaceKeeps(iters, queue, i + 1, i, sources[i]);
    assert mid[..i] == iters[..i];
    TakeHeadKeeps(mid, queue, i, i + 1);
    TakeHeadSorted(mid, queue, i);
    LoadedStep(mid, queue, after, queue2, sources, i);
    UpdateSuffix(after, iters, i);
    assert iters[i + 1..] == iters[i..][1..] && rest[i + 1..] == rest[i..][1..];
  }

  /** Polling an entry keeps the invariant and hands out exactly that record. */
  lemma {:induction false} PollKeeps(iters: seq<Option<Cursor<KeyValue>>>, queue: seq<IterNode<KeyValue>>, m: int)
    requires Loaded(iters, queue) && 0 <= m < |queue|
    ensures queue[m].src < |iters|
    ensures Loaded(Poll(iters, queue, m).0, Poll(iters, queue, m).1)
    ensures Outstanding(Poll(iters, queue, m).0, Poll(iters, queue, m).1) + multiset{queue[m].kv} == Outstanding(iters, queue)
  {
    RemoveKeeps(iters, queue, m);
    RemoveOutstanding(iters, queue, m);
    var q := queue[..m] + queue[m + 1..];
    TakeHeadKeeps(iters, q, queue[m].src, |iters|);
    TakeHeadOutstanding(iters, q, queue[m].src);
    TakeHeadSorted(iters, q, queue[m].src);
  }

  /**
   * The heart of the merge: the least entry of the queue is at or below
   * every record still to come, queued or not, because each sub-iterator is
   * sorted and its last returned record sits in the queue.
   */
  lemma {:induction false} LeastOfQueueIsLeast(iters: seq<Option<Cursor<KeyValue>>>, queue: seq<IterNode<KeyValue>>, m: int)
    requires Loaded(iters, queue) && 0 <= m < |queue|
    requires forall k | 0 <= k < |queue| :: KvLessEq(queue[m].kv, queue[k].kv)
    ensures forall x | x in Outstanding(iters, queue) :: KvLessEq(queue[m].kv, x)
  {
    forall x | x in Outstanding(iters, queue)
      ensures KvLessEq(queue[m].kv, x)
    {
      UnionMember(multiset(Kvs(queue)), Unread(iters), x);
      if x in multiset(Kvs(queue)) {
        QueuedMember(queue, x);
      } else {
        var j := UnreadBehindQueued(iters, queue, x);
        KvTransitive(queue[m].kv, queue[j].kv, x);
      }
    }
  }

  /** A record a sub-iterator has yet to return is no smaller than that sub-iterator's queued entry. */
  lemma {:induction false} UnreadBehindQueued(iters: seq<Option<Cursor<KeyValue>>>, queue: seq<IterNode<KeyValue>>, x: KeyValue)
    returns (j: int)
    requires Loaded(iters, queue) && x in Unread(iters)
    ensures 0 <= j < |queue| && KvLessEq(queue[j].kv, x)
  {
    UnreadMember(iters, x);
    var i :| 0 <= i < |iters| && x in SourceRest(iters[i]);
    var c := iters[i].value;
    assert x in c.Rest();
    j := QueuedSourceOf(iters, queue, i);
    assert NodeOk(iters, queue[j], |iters|);
    RestFollowsLast(c, x);
  }

  /** In a sorted cursor, a record still to come is no smaller than the one returned last. */
  lemma {:induction false} RestFollowsLast(c: Cursor<KeyValue>, x: KeyValue)
    requires SortedCursor(c) && 1 <= c.pos && x in c.Rest()
    ensures KvLessEq(c.items[c.pos - 1], x)
  {
    var t :| c.pos <= t < |c.items| && c.items[t] == x;
    assert KvLessEq(c.items[c.pos - 1], c.items[t]);
  }

  /** A sub-iterator with records left has its entry in a loaded queue. */
  lemma {:induction false} QueuedSourceOf(iters: seq<Option<Cursor<KeyValue>>>, queue: seq<IterNode<KeyValue>>, i: int)
    returns (j: int)
    requires Loaded(iters, queue) && 0 <= i < |iters| && iters[i].Some? && iters[i].value.HasNext()
    ensures 0 <= j < |queue| && queue[j].src == i
  {
    assert HasNode(queue, i);
    j :| 0 <= j < |queue| && queue[j].src == i;
  }

  /** A sub-iterator being re-positioned by `seekTo` (a null one is skipped). */
  function SeekSource(it: Option<Cursor<KeyValue>>, target: KeyValue): Option<Cursor<KeyValue>>
  {
    match it
    case None => None
    case Some(c) => Some(SeekTo(c, target))
  }

  /** Every sub-iterator re-positioned at `target`. */
  function SeekAll(iters: seq<Option<Cursor<KeyValue>>>, target: KeyValue): (r: seq<Option<Cursor<KeyValue>>>)
    ensures |r| == |iters| && forall i | 0 <= i < |iters| :: r[i] == SeekSource(iters[i], target)
  {
    seq(|iters|, i requires 0 <= i < |iters| => SeekSource(iters[i], target))
  }

  /** Re-positioned sorted sub-iterators are still sorted. */
  lemma {:induction false} SeekAllSorted(iters: seq<Option<Cursor<KeyValue>>>, target: KeyValue)
    requires AllSorted(iters)
    ensures AllSorted(SeekAll(iters, target))
  {
    forall i | 0 <= i < |iters| && iters[i].Some?
      ensures SortedCursor(SeekAll(iters, target)[i].value)
    {
      SeekRest(iters[i].value, target);
    }
  }

  /** After a seek, every record still to come is at or above the target. */
  lemma {:induction false} SoughtAtLeast(iters: seq<Option<Cursor<KeyValue>>>, target: KeyValue)
    requires AllSorted(iters)
    ensures forall x | x in Unread(SeekAll(iters, target)) :: KvLessEq(target, x)
  {
    forall x | x in Unread(SeekAll(iters, target))
      ensures KvLessEq(target, x)
    {
      UnreadMember(SeekAll(iters, target), x);
      var i :| 0 <= i < |iters| && x in SourceRest(SeekAll(iters, target)[i]);
      SeekRest(iters[i].value, target);
    }
  }

  /** After a seek, every record of a sub-iterator at or above the target is still to come. */
  lemma {:induction false} SoughtComplete(iters: seq<Option<Cursor<KeyValue>>>, target: KeyValue, i: int, t: int)
    requires 0 <= i < |iters| && iters[i].Some? && SortedCursor(iters[i].value)
    requires 0 <= t < |iters[i].value.items| && KvLessEq(target, iters[i].value.items[t])
    ensures iters[i].value.items[t] in Unread(SeekAll(iters, target))
  {
    SeekRest(iters[i].value, target);
    UnreadHas(SeekAll(iters, target), i, iters[i].value.items[t]);
  }

  /** The position of a least entry of a non-empty queue (`PriorityQueue.poll`'s choice). */
  method LeastNode(queue: seq<IterNode<KeyValue>>) returns (m: int)
    requires queue != []
    ensures 0 <= m < |queue|
    ensures forall k | 0 <= k < |queue| :: KvLessEq(queue[m].kv, queue[k].kv)
  {
    m := 0;
    EqualsIgnoresValue(queue[0].kv, queue[0].kv);
    for i := 1 to |queue|
      invariant 0 <= m < i
      invariant forall k | 0 <= k < i :: KvLessEq(queue[m].kv, queue[k].kv)
    {
      if KvLess(queue[i].kv, queue[m].kv) {
        forall k | 0 <= k < i
          ensures KvLessEq(queue[i].kv, queue[k].kv)
        {
          KvMixedTransitive(queue[i].kv, queue[m].kv, queue[k].kv);
        }
        EqualsIgnoresValue(queue[i].kv, queue[i].kv);
        m := i;
      } else {
        KvTotal(queue[i].kv, queue[m].kv);
        KvAntisymmetric(queue[i].kv, queue[m].kv);
      }
    }
  }

  // ---------------------------------------------------------------------------
  // MultiIter
  // ---------------------------------------------------------------------------

  /**
   * `MultiIter`: the k-way merge.  `iters` are the sub-iterators (null ones
   * included) and `queue` the priority queue, holding at most one entry per
   * sub-iterator: the record it returned last.
   */
  class MultiIter {
    var iters: seq<Option<Cursor<KeyValue>>>
    var queue: seq<IterNode<KeyValue>>

    ghost predicate Valid()
      reads this
    {
      Loaded(iters, queue)
    }

    /** Everything the merge has yet to return. */
    function Remaining(): multiset<KeyValue>
      reads this
    {
      Outstanding(iters, queue)
    }

    /** The constructor: each non-null sub-iterator with a record contributes its head to the queue. */
    constructor(sources: seq<Option<Cursor<KeyValue>>>)
      requires AllSorted(sources)
      ensures Valid()
      ensures Remaining() == Unread(sources)
      ensures |iters| == |sources|
    {
      iters := sources;
      queue := [];
      new;
      for i := 0 to |sources|
        invariant Loading(iters, queue, sources, sources, i)
      {
        ghost var before := iters;
        ghost var queued := queue;
        SuffixHead(before, sources, i);
        LoadHead(i);
        LoadStep(before, queued, sources, sources, i, iters, queue);
      }
      UnreadAll(iters);
      UnreadAll(sources);
    }

    /** One sub-iterator's head into the queue. */
    method LoadHead(i: int)
      requires 0 <= i < |iters|
      modifies this
      ensures (iters, queue) == TakeHead(old(iters), old(queue), i)
    {
      match iters[i]
      case None =>
      case Some(c) =>
        if c.HasNext() {
          var (kv, rest) := Advance(c);
          iters := iters[i := Some(rest)];
          queue := queue + [IterNode(kv, i)];
        }
    }

    /**
     * `seekTo(kv)`: the queue is cleared and rebuilt from the heads of the
     * non-null sub-iterators after each has been re-positioned.
     */
    method SeekTo(target: KeyValue)
      requires Valid()
      modifies this
      ensures Valid()
      ensures |iters| == |old(iters)|
      ensures Remaining() == Unread(SeekAll(old(iters), target))
      ensures forall x | x in Remaining() :: KvLessEq(target, x)
    {
      ghost var sources := SeekAll(iters, target);
      SeekAllSorted(iters, target);
      queue := [];
      for i := 0 to |iters|
        invariant Loading(iters, queue, sources, old(iters), i)
      {
        ghost var before := iters;
        ghost var queued := queue;
        SuffixHead(before, old(iters), i);
        iters := iters[i := SeekSource(iters[i], target)];
        LoadHead(i);
        LoadStep(before, queued, sources, old(iters), i, iters, queue);
      }
      UnreadAll(iters);
      UnreadAll(sources);
      SoughtAtLeast(old(iters), target);
    }

    /** `hasNext()`: the queue is not empty, which is to say something is left. */
    method HasNext() returns (r: bool)
      requires Valid()
      ensures r <==> queue != []
      ensures r <==> Remaining() != multiset{}
    {
      EmptyQueueMeansDone(iters, queue);
      r := |queue| > 0;
    }

    /**
     * `next()`: polls a least entry and returns its record after queueing
     * that sub-iterator's next record; on an empty queue, null.
     */
    method Next() returns (r: Option<KeyValue>)
      requires Valid()
      modifies this
      ensures Valid()
      ensures r.None? <==> old(queue) == []
      ensures r.None? ==> iters == old(iters) && queue == old(queue)
      ensures r.Some? ==> Remaining() + multiset{r.value} == old(Remaining())
      ensures r.Some? ==> forall x | x in old(Remaining()) :: KvLessEq(r.value, x)
    {
      if queue == [] {
        return None;
      }
      var m := LeastNode(queue);
      var smallest := queue[m];
      LeastOfQueueIsLeast(iters, queue, m);
      PollKeeps(iters, queue, m);
      queue := queue[..m] + queue[m + 1..];
      LoadHead(smallest.src);
      r := Some(smallest.kv);
    }

    /** `close()` closes every sub-iterator; a null one throws. */
    method Close() returns (r: Result<()>)
      ensures r.Err? <==> exists i :: 0 <= i < |iters| && iters[i].None?
    {
      for i := 0 to |iters|
        invariant forall k | 0 <= k < i :: iters[k].Some?
      {
        if iters[i].None? {
          return Err(NullPointer);
        }
      }
      r := Ok(());
    }
  }

  // ---------------------------------------------------------------------------
  // File names: `data.%020d` and the pattern `data\.([0-9]+)`
  // ---------------------------------------------------------------------------

  predicate IsDigit(c: char)
  {
    '0' <= c <= '9'
  }

  predicate AllDigits(s: string)
  {
    forall i | 0 <= i < |s| :: IsDigit(s[i])
  }

  function DigitChar(d: int): (c: char)
    requires 0 <= d < 10
    ensures IsDigit(c)
  {
    ('0' as int + d) as char
  }

  /** The decimal digits of `n`, without leading zeros (`"0"` for zero). */
  function Digits(n: nat): (r: string)
    ensures |r| >= 1 && AllDigits(r)
  {
    if n < 10 then [DigitChar(n)] else Digits(n / 10) + [DigitChar(n % 10)]
  }

  /** The value of a run of decimal digits. */
  function DigitsValue(s: string): nat
    requires AllDigits(s)
  {
    if s == [] then 0 else DigitsValue(s[..|s| - 1]) * 10 + (s[|s| - 1] as int - '0' as int)
  }

  function Zeros(k: nat): (r: string)
    ensures |r| == k && AllDigits(r)
  {
    seq(k, _ => '0')
  }

  /** Zero-padding on the left up to width `w`; a longer string is kept whole. */
  function Pad(s: string, w: nat): string
  {
    if |s| < w then Zeros(w - |s|) + s else s
  }

  /** `String.format("%020d", id)`: zero-padded to 20 characters, a minus sign counting towards the width. */
  function FormatId(id: int): string
  {
    if id < 0 then "-" + Pad(Digits(-id), 19) else Pad(Digits(id), 20)
  }

  /** The base name of the data file with id `id`. */
  function DataFileName(id: int): string
  {
    "data." + FormatId(id)
  }

  /** `new File(dir, name).getPath()`, the directory and the name joined by the separator. */
  function PathIn(dir: string, name: string): string
  {
    dir + "/" + name
  }

  /** `DATA_FILE_REGEX.matcher(name).matches()`: `data.` and then one or more ASCII digits. */
  predicate IsDataFileName(name: string)
  {
    |name| > 5 && name[..5] == "data." && AllDigits(name[5..])
  }

  /** `Long.parseLong(matcher.group(1))`: the digits' value, or a `NumberFormatException` past `Long.MAX_VALUE`. */
  function FileId(name: string): Result<int>
    requires IsDataFileName(name)
  {
    var v := DigitsValue(name[5..]);
    if v > INT64_MAX then Err(NumberFormat) else Ok(v)
  }

  lemma {:induction false} DigitsRoundTrip(n: nat)
    ensures DigitsValue(Digits(n)) == n
  {
    if n >= 10 {
      var d := Digits(n / 10) + [DigitChar(n % 10)];
      assert d[..|d| - 1] == Digits(n / 10);
      DigitsRoundTrip(n / 10);
    }
  }

  lemma {:induction false} LeadingZeros(k: nat, s: string)
    requires AllDigits(s)
    ensures DigitsValue(Zeros(k) + s) == DigitsValue(s)
    decreases |s|, k
  {
    if s == [] {
      assert Zeros(k) + s == Zeros(k);
      if k > 0 {
        assert Zeros(k)[..k - 1] == Zeros(k - 1);
        LeadingZeros(k - 1, s);
        assert Zeros(k - 1) + s == Zeros(k - 1);
      }
    } else {
      var t := Zeros(k) + s;
      assert t[..|t| - 1] == Zeros(k) + s[..|s| - 1];
      LeadingZeros(k, s[..|s| - 1]);
    }
  }

  lemma {:induction false} DigitsShort(n: nat, k: nat, p: nat)
    requires k >= 1 && n < p && p == Pow10(k)
    ensures |Digits(n)| <= k
  {
    if n >= 10 {
      DigitsShort(n / 10, k - 1, Pow10(k - 1));
    }
  }

  function Pow10(k: nat): (r: nat)
    ensures r >= 1
  {
    if k == 0 then 1 else 10 * Pow10(k - 1)
  }

  /**
   * A name the store hands out is one `open` recognises, with its id read
   * back: twenty digits for every non-negative `long`.
   */
  lemma {:induction false} DataFileNameRoundTrip(id: int)
    requires 0 <= id <= INT64_MAX
    ensures |FormatId(id)| == 20
    ensures IsDataFileName(DataFileName(id))
    ensures FileId(DataFileName(id)) == Ok(id)
  {
    assert Pow10(19) == 10000000000000000000 by {
      assert Pow10(4) == 10000;
      assert Pow10(8) == 100000000;
      assert Pow10(16) == 10000000000000000;
    }
    DigitsShort(id, 19, Pow10(19));
    var d := Digits(id);
    var f := Zeros(20 - |d|) + d;
    assert FormatId(id) == f;
    assert DataFileName(id)[5..] == f;
    LeadingZeros(20 - |d|, d);
    DigitsRoundTrip(id);
  }

  // ---------------------------------------------------------------------------
  // The largest id at `open`
  // ---------------------------------------------------------------------------

  /** `listDiskFiles()`: the directory entries whose names match the pattern, in listing order. */
  function DataFiles(listing: seq<(string, seq<Byte>)>): (r: seq<(string, seq<Byte>)>)
    ensures forall i | 0 <= i < |r| :: IsDataFileName(r[i].0)
    ensures forall e | e in listing && IsDataFileName(e.0) :: e in r
    ensures forall e | e in r :: e in listing
  {
    if listing == [] then []
    else
      var rest := DataFiles(listing[1..]);
      if IsDataFileName(listing[0].0) then [listing[0]] + rest else rest
  }

  /** The loop of `open()`: `max(0, ids...)`, failing on the first id past `Long.MAX_VALUE`. */
  function MaxId(files: seq<(string, seq<Byte>)>): Result<int>
    requires forall i | 0 <= i < |files| :: IsDataFileName(files[i].0)
  {
    if files == [] then Ok(0)
    else
      var m :- MaxId(files[..|files| - 1]);
      var id :- FileId(files[|files| - 1].0);
      Ok(if m >= id then m else id)
  }

  /** The largest id bounds every listed file's id, and is itself a `long` at least 0. */
  lemma {:induction false} MaxIdBounds(files: seq<(string, seq<Byte>)>, m: int)
    requires forall i | 0 <= i < |files| :: IsDataFileName(files[i].0)
    requires MaxId(files) == Ok(m)
    ensures 0 <= m <= INT64_MAX
    ensures forall i | 0 <= i < |files| :: FileId(files[i].0).Ok? && FileId(files[i].0).value <= m
  {
    if files != [] {
      var init := files[..|files| - 1];
      var m0 := MaxId(init).value;
      MaxIdBounds(init, m0);
      forall i | 0 <= i < |files|
        ensures FileId(files[i].0).Ok? && FileId(files[i].0).value <= m
      {
        if i < |files| - 1 {
          assert files[i] == init[i];
        }
      }
    }
  }

  /**
   * Ids carry on above what is on disk: after `open`, every id the store
   * hands out until its counter wraps names a file that is not there yet.
   */
  lemma {:induction false} NextNamesAreNew(listing: seq<(string, seq<Byte>)>, m: int, id: int)
    requires MaxId(DataFiles(listing)) == Ok(m) && m < id <= INT64_MAX
    ensures forall e | e in listing :: e.0 != DataFileName(id)
  {
    var files := DataFiles(listing);
    MaxIdBounds(files, m);
    DataFileNameRoundTrip(id);
    forall e | e in listing && IsDataFileName(e.0)
      ensures e.0 != DataFileName(id)
    {
      var i :| 0 <= i < |files| && files[i] == e;
      assert FileId(e.0).value <= m;
    }
  }

  // ---------------------------------------------------------------------------
  // Removing files by name
  // ---------------------------------------------------------------------------

  /** `files.contains(f)`: some file in `files` has `f`'s name (`DiskFile.equals`). */
  predicate NamedIn(f: DiskFile, files: seq<DiskFile>)
  {
    exists g | g in files :: g.fileName == f.fileName
  }

  /** `list.removeAll(files)`: the files not named in `files`, in their order. */
  function Without(list: seq<DiskFile>, files: seq<DiskFile>): seq<DiskFile>
  {
    if list == [] then []
    else (if NamedIn(list[0], files) then [] else [list[0]]) + Without(list[1..], files)
  }

  /** A file survives `removeAll` exactly when its name is not among those removed. */
  lemma {:induction false} WithoutMember(list: seq<DiskFile>, files: seq<DiskFile>, f: DiskFile)
    ensures f in Without(list, files) <==> f in list && !NamedIn(f, files)
    decreases |list|
  {
    if list != [] {
      WithoutMember(list[1..], files, f);
      assert f in list <==> f == list[0] || f in list[1..];
    }
  }

  /** `removeAll` keeps the order of what it leaves: it splits over concatenation. */
  lemma {:induction false} WithoutAppend(a: seq<DiskFile>, b: seq<DiskFile>, files: seq<DiskFile>)
    ensures Without(a + b, files) == Without(a, files) + Without(b, files)
    decreases |a|
  {
    if a == [] {
      assert a + b == b;
    } else {
      assert (a + b)[0] == a[0] && (a + b)[1..] == a[1..] + b;
      WithoutAppend(a[1..], b, files);
    }
  }

  /** The files of `list` whose reference count, in `counts`, is 0. */
  function Unreferenced(list: seq<DiskFile>, counts: seq<int>): seq<DiskFile>
    requires |list| == |counts|
  {
    if list == [] then []
    else (if counts[0] == 0 then [list[0]] else []) + Unreferenced(list[1..], counts[1..])
  }

  lemma {:induction false} UnreferencedMember(list: seq<DiskFile>, counts: seq<int>, f: DiskFile)
    requires |list| == |counts|
    ensures f in Unreferenced(list, counts) <==> exists k | 0 <= k < |list| :: list[k] == f && counts[k] == 0
    decreases |list|
  {
    if list != [] {
      UnreferencedMember(list[1..], counts[1..], f);
      if exists k | 0 <= k < |list| - 1 :: list[1..][k] == f && counts[1..][k] == 0 {
        var k :| 0 <= k < |list| - 1 && list[1..][k] == f && counts[1..][k] == 0;
        assert list[k + 1] == f && counts[k + 1] == 0;
      }
      if exists k | 0 <= k < |list| :: list[k] == f && counts[k] == 0 {
        var k :| 0 <= k < |list| && list[k] == f && counts[k] == 0;
        if k > 0 {
          assert list[1..][k - 1] == f && counts[1..][k - 1] == 0;
        }
      }
    }
  }

  lemma {:induction false} UnreferencedSnoc(list: seq<DiskFile>, counts: seq<int>, i: int)
    requires |list| == |counts| && 0 <= i < |list|
    ensures Unreferenced(list[..i + 1], counts[..i + 1])
            == Unreferenced(list[..i], counts[..i]) + (if counts[i] == 0 then [list[i]] else [])
    decreases i
  {
    if i > 0 {
      assert list[..i + 1][1..] == list[1..][..i] && counts[..i + 1][1..] == counts[1..][..i];
      assert list[..i][1..] == list[1..][..i - 1] && counts[..i][1..] == counts[1..][..i - 1];
      UnreferencedSnoc(list[1..], counts[1..], i - 1);
    }
  }

  /**
   * What sweeping leaves: no compacted file whose count was 0, and every
   * referenced file that shares its name with no unreferenced one.  With
   * distinct names the survivors are exactly the referenced files.
   */
  lemma {:induction false} SweepKeepsReferenced(list: seq<DiskFile>, counts: seq<int>)
    requires |list| == |counts|
    ensures forall k | 0 <= k < |list| && counts[k] == 0 :: list[k] !in Without(list, Unreferenced(list, counts))
    ensures forall k | 0 <= k < |list| && counts[k] != 0
                       && (forall j | 0 <= j < |list| && counts[j] == 0 :: list[j].fileName != list[k].fileName)
                       :: list[k] in Without(list, Unreferenced(list, counts))
  {
    var unused := Unreferenced(list, counts);
    forall k | 0 <= k < |list| && counts[k] == 0
      ensures list[k] !in Without(list, unused)
    {
      UnreferencedMember(list, counts, list[k]);
      WithoutMember(list, unused, list[k]);
    }
    forall k | 0 <= k < |list| && counts[k] != 0
               && (forall j | 0 <= j < |list| && counts[j] == 0 :: list[j].fileName != list[k].fileName)
      ensures list[k] in Without(list, unused)
    {
      if NamedIn(list[k], unused) {
        var g :| g in unused && g.fileName == list[k].fileName;
        UnreferencedMember(list, counts, g);
        assert false;
      }
      WithoutMember(list, unused, list[k]);
    }
  }

  /** The reference counts of a list of files. */
  function RefCounts(list: seq<DiskFile>): (r: seq<int>)
    reads set f | f in list
    ensures |r| == |list| && forall k | 0 <= k < |list| :: r[k] == list[k].refCount
  {
    if list == [] then [] else [list[0].refCount] + RefCounts(list[1..])
  }

  /** Whether a file with these contents opens cleanly (`DiskFile.open` throws nothing). */
  predicate Opens(bytes: seq<Byte>)
  {
    OpenSpec(bytes, FileState(0, 0, 0, 0, [])).1.None?
  }

  /** `new DiskFile(name, cache).open()` on a file with contents `bytes`. */
  method OpenFile(fileName: string, bytes: seq<Byte>) returns (r: Result<DiskFile>)
    ensures r.Ok? <==> Opens(bytes)
    ensures r.Err? ==> r.error == OpenSpec(bytes, FileState(0, 0, 0, 0, [])).1.value
    ensures r.Ok? ==> fresh(r.value) && r.value.Valid() && r.value.fileName == fileName
                      && r.value.handle == Opened(bytes) && r.value.refCount == 0
  {
    var df := new DiskFile(fileName);
    r := df.Open(bytes);
  }

  // ---------------------------------------------------------------------------
  // Writing a new file
  // ---------------------------------------------------------------------------

  /**
   * The body shared by the flusher and the compactor: a new `DiskFileWriter`
   * takes every record, then the index and the trailer; the result is the
   * file's bytes.
   */
  method WriteRecords(fileName: string, kvs: seq<KeyValue>) returns (r: Result<seq<Byte>>)
    requires forall i | 0 <= i < |kvs| :: KeyValues.Valid(kvs[i])
    ensures r == DiskFileWriters.WriteFile(kvs)
  {
    var writer := new DiskFileWriters.DiskFileWriter(fileName);
    for i := 0 to |kvs|
      invariant writer.Valid() && fresh(writer) && fresh(writer.indexWriter)
      invariant fresh(writer.currentWriter) && fresh(writer.currentWriter.bloomFilter)
      invariant DiskFileWriters.AppendAll(DiskFileWriters.NewWriter(), kvs) == DiskFileWriters.AppendAll(writer.State(), kvs[i..])
    {
      ghost var pre := writer.State();
      assert kvs[i..][0] == kvs[i] && kvs[i..][1..] == kvs[i + 1..];
      var appended := writer.Append(Some(kvs[i]));
      if appended.Err? {
        return Err(appended.error);
      }
    }
    var indexed := writer.AppendIndex();
    if indexed.Err? {
      return Err(indexed.error);
    }
    writer.AppendTrailer();
    r := Ok(writer.out);
  }

  /** The loop of `open()` that reads the largest id. */
  method ComputeMaxId(files: seq<(string, seq<Byte>)>) returns (r: Result<int>)
    requires forall i | 0 <= i < |files| :: IsDataFileName(files[i].0)
    ensures r == MaxId(files)
  {
    var maxId := 0;
    for i := 0 to |files|
      invariant MaxId(files[..i]) == Ok(maxId)
    {
      assert files[..i + 1][..i] == files[..i];
      var id := FileId(files[i].0);
      if id.Err? {
        ghost var j := i + 1;
        while j < |files|
          invariant i < j <= |files| && MaxId(files[..j]) == Err(id.error)
        {
          assert files[..j + 1][..j] == files[..j];
          j := j + 1;
        }
        assert files[..|files|] == files;
        return Err(id.error);
      }
      maxId := if maxId >= id.value then maxId else id.value;
    }
    assert files[..|files|] == files;
    r := Ok(maxId);
  }

  /**
   * What the second loop of `open()` leaves: `added` holds the files opened
   * from `files`, in order, up to the first that fails to open, and the
   * result says whether one failed.
   */
  ghost predicate OpenOutcome(dir: string, files: seq<(string, seq<Byte>)>, added: seq<DiskFile>, r: Result<()>)
    reads set f | f in added
  {
    |added| <= |files|
    && (forall k | 0 <= k < |added| :: LoadedFrom(added[k], dir, files[k]))
    && (r.Ok? <==> forall k | 0 <= k < |files| :: Opens(files[k].1))
    && (r.Ok? ==> |added| == |files|)
    && (r.Err? ==> |added| < |files| && !Opens(files[|added|].1)
                   && r.error == OpenSpec(files[|added|].1, FileState(0, 0, 0, 0, [])).1.value)
  }

  /**
   * The second loop of `open()`: each listed file is opened in turn; the
   * files opened before a failure are kept in `added`.
   */
  method OpenAll(dir: string, files: seq<(string, seq<Byte>)>) returns (added: seq<DiskFile>, r: Result<()>)
    ensures OpenOutcome(dir, files, added, r)
    ensures forall k | 0 <= k < |added| :: fresh(added[k])
  {
    added := [];
    for i := 0 to |files|
      invariant |added| == i
      invariant forall k | 0 <= k < i :: fresh(added[k]) && LoadedFrom(added[k], dir, files[k])
    {
      var df := OpenFile(PathIn(dir, files[i].0), files[i].1);
      if df.Err? {
        return added, Err(df.error);
      }
      added := added + [df.value];
    }
    r := Ok(());
  }

  /** The file `df` was opened from the listing entry `e` of the data directory `dir`. */
  ghost predicate LoadedFrom(df: DiskFile, dir: string, e: (string, seq<Byte>))
    reads df
  {
    df.fileName == PathIn(dir, e.0) && df.handle == Opened(e.1) && Opens(e.1)
  }

  // ---------------------------------------------------------------------------
  // DiskStore
  // ---------------------------------------------------------------------------

  /**
   * `DiskStore`: the live files, the compacted files that iterators may
   * still be reading, and the file-id counter, which is null until `open`.
   */
  class DiskStore {
    const dataDir: string
    const maxDiskFiles: int
    var diskFiles: seq<DiskFile>
    var compactedDiskFiles: seq<DiskFile>
    var maxFileId: Option<int>

    constructor(dataDir: string, maxDiskFiles: int)
      ensures this.dataDir == dataDir && this.maxDiskFiles == maxDiskFiles
      ensures diskFiles == [] && compactedDiskFiles == [] && maxFileId == None
    {
      this.dataDir := dataDir;
      this.maxDiskFiles := maxDiskFiles;
      diskFiles := [];
      compactedDiskFiles := [];
      maxFileId := None;
    }

    /**
     * `open()` over a directory listing of names and contents: the counter
     * starts at the largest id found (0 for none), then every data file is
     * opened and appended in listing order; the first failure propagates and
     * leaves the files opened before it in the list.
     */
    method Open(listing: seq<(string, seq<Byte>)>) returns (r: Result<()>)
      modifies this`maxFileId, this`diskFiles
      ensures var m := MaxId(DataFiles(listing));
              m.Err? ==> r == Err(m.error) && maxFileId == old(maxFileId) && diskFiles == old(diskFiles)
      ensures var m := MaxId(DataFiles(listing));
              m.Ok? ==> maxFileId == Some(m.value)
                        && |old(diskFiles)| <= |diskFiles| && diskFiles[..|old(diskFiles)|] == old(diskFiles)
                        && OpenOutcome(dataDir, DataFiles(listing), diskFiles[|old(diskFiles)|..], r)
      ensures forall k | |old(diskFiles)| <= k < |diskFiles| :: fresh(diskFiles[k])
    {
      var files := DataFiles(listing);
      var maxId := ComputeMaxId(files);
      if maxId.Err? {
        return Err(maxId.error);
      }
      maxFileId := Some(maxId.value);
      r := AddOpened(files);
    }

    /** The loop of `open` that opens every data file and adds it to the live list. */
    method AddOpened(files: seq<(string, seq<Byte>)>) returns (r: Result<()>)
      modifies this`diskFiles
      ensures |old(diskFiles)| <= |diskFiles| && diskFiles[..|old(diskFiles)|] == old(diskFiles)
      ensures OpenOutcome(dataDir, files, diskFiles[|old(diskFiles)|..], r)
      ensures forall k | |old(diskFiles)| <= k < |diskFiles| :: fresh(diskFiles[k])
    {
      var added;
      added, r := OpenAll(dataDir, files);
      AppendParts(diskFiles, added);
      diskFiles := diskFiles + added;
    }

    /** `nextDiskFileId()`: `incrementAndGet` on the counter, which wraps as a `long`; null before `open`. */
    method NextDiskFileId() returns (r: Result<int>)
      requires maxFileId.Some? ==> IsInt64(maxFileId.value)
      modifies this`maxFileId
      ensures old(maxFileId).None? ==> r == Err(NullPointer) && maxFileId == None
      ensures old(maxFileId).Some? ==> r.Ok? && maxFileId == Some(r.value) && IsInt64(r.value)
      ensures old(maxFileId).Some? && old(maxFileId).value < INT64_MAX ==> r == Ok(old(maxFileId).value + 1)
      ensures old(maxFileId) == Some(INT64_MAX) ==> r == Ok(INT64_MIN)
    {
      if maxFileId.None? {
        return Err(NullPointer);
      }
      var next := Wrap64(maxFileId.value + 1);
      Wrap64Identity(maxFileId.value + 1);
      WrapPastMax();
      maxFileId := Some(next);
      r := Ok(next);
    }

    /** `getNextDiskFileName()`: the next id's `data.%020d` name inside the data directory. */
    method GetNextDiskFileName() returns (r: Result<string>)
      requires maxFileId.Some? ==> IsInt64(maxFileId.value)
      modifies this`maxFileId
      ensures old(maxFileId).None? ==> r == Err(NullPointer) && maxFileId == None
      ensures old(maxFileId).Some? ==> maxFileId.Some? && IsInt64(maxFileId.value)
                                       && r == Ok(PathIn(dataDir, DataFileName(maxFileId.value)))
      ensures old(maxFileId).Some? && old(maxFileId).value < INT64_MAX ==> maxFileId == Some(old(maxFileId).value + 1)
    {
      var id :- NextDiskFileId();
      r := Ok(PathIn(dataDir, DataFileName(id)));
    }

    /** `addDiskFile(df)`: the file joins the live list at the end. */
    method AddDiskFile(df: DiskFile)
      modifies this`diskFiles
      ensures diskFiles == old(diskFiles) + [df]
    {
      diskFiles := diskFiles + [df];
    }

    /** `getDiskFilesSnapshot()`: a copy of the live list. */
    method GetDiskFilesSnapshot() returns (r: seq<DiskFile>)
      ensures r == diskFiles
    {
      r := diskFiles;
    }

    /**
     * `compactDown(files, newFile)`: the inputs leave the live list (by name),
     * the output joins it at the end, and the inputs join the compacted list.
     */
    method CompactDown(files: seq<DiskFile>, newFile: DiskFile)
      modifies this`diskFiles, this`compactedDiskFiles
      ensures diskFiles == Without(old(diskFiles), files) + [newFile]
      ensures compactedDiskFiles == old(compactedDiskFiles) + files
    {
      diskFiles := Without(diskFiles, files) + [newFile];
      compactedDiskFiles := compactedDiskFiles + files;
    }

    /**
     * `tryClearCompactedDiskFiles()`: every compacted file nothing refers to
     * is closed and renamed to its archive name (`renames` says whether the
     * file system agrees); once all are through, they leave the list.  The
     * first failed rename throws with the list untouched.
     */
    method TryClearCompactedDiskFiles(renames: string -> bool) returns (r: Result<()>)
      modifies this`compactedDiskFiles, set f | f in compactedDiskFiles
      ensures var cs, counts := old(compactedDiskFiles), old(RefCounts(compactedDiskFiles));
              r.Err? <==> exists k | 0 <= k < |cs| :: counts[k] == 0 && !renames(cs[k].fileName)
      ensures r.Err? ==> r.error == RenameFailed && compactedDiskFiles == old(compactedDiskFiles)
      ensures r.Ok? ==> compactedDiskFiles == Without(old(compactedDiskFiles), Unreferenced(old(compactedDiskFiles), old(RefCounts(compactedDiskFiles))))
      ensures r.Ok? ==> forall f | f in old(compactedDiskFiles) && old(f.refCount) == 0 :: !f.handle.Opened?
      ensures forall f | f in old(compactedDiskFiles) :: f.refCount == old(f.refCount)
    {
      var cs := compactedDiskFiles;
      var renamed, unused := CloseUnreferenced(cs, renames);
      if !renamed {
        return Err(RenameFailed);
      }
      compactedDiskFiles := Without(compactedDiskFiles, unused);
      r := Ok(());
    }
  }

  /**
   * The loop of `tryClearCompactedDiskFiles()`: each file of `cs` nothing
   * refers to is closed and renamed, in order, until a rename fails.
   */
  method CloseUnreferenced(cs: seq<DiskFile>, renames: string -> bool) returns (renamed: bool, unused: seq<DiskFile>)
    modifies set f | f in cs
    ensures var counts := old(RefCounts(cs));
            !renamed <==> exists k | 0 <= k < |cs| :: counts[k] == 0 && !renames(cs[k].fileName)
    ensures renamed ==> unused == Unreferenced(cs, old(RefCounts(cs)))
    ensures renamed ==> forall f | f in cs && old(f.refCount) == 0 :: !f.handle.Opened?
    ensures forall f | f in cs :: f.refCount == old(f.refCount)
  {
    ghost var counts := RefCounts(cs);
    unused := [];
    for i := 0 to |cs|
      invariant forall f | f in cs :: f.refCount == old(f.refCount)
      invariant unused == Unreferenced(cs[..i], counts[..i])
      invariant forall k | 0 <= k < i && counts[k] == 0 :: !cs[k].handle.Opened? && renames(cs[k].fileName)
    {
      UnreferencedSnoc(cs, counts, i);
      var df := cs[i];
      assert df.refCount == counts[i];
      if df.refCount != 0 {
        continue;
      }
      var closed := df.Close();
      unused := unused + [df];
      if !renames(df.fileName) {
        assert counts[i] == 0 && !renames(cs[i].fileName);
        return false, unused;
      }
    }
    assert cs[..|cs|] == cs && counts[..|cs|] == counts;
    renamed := true;
  }

  lemma WrapPastMax()
    ensures Wrap64(INT64_MAX + 1) == INT64_MIN
  {
  }

  /**
   * `DefaultCompactor`: the `compacting` flag is the single-flight guard
   * around `performCompact`.
   */
  class Compactor {
    const store: DiskStore
    var compacting: bool

    constructor(store: DiskStore)
      ensures this.store == store && !compacting
    {
      this.store := store;
      compacting := false;
    }

    /**
     * `performCompact(filesToCompact)`, given the records the merging
     * iterator over those files yields and whether the rename succeeds.
     * While another compaction holds the guard it returns at once
     * (`Ok(false)`); otherwise it takes the guard, writes the merged file,
     * swaps it in with `compactDown`, and releases the guard on every path
     * past taking the file name.
     */
    method PerformCompact(filesToCompact: seq<DiskFile>, merged: seq<KeyValue>, renamed: bool) returns (r: Result<bool>)
      requires forall i | 0 <= i < |merged| :: KeyValues.Valid(merged[i])
      requires store.maxFileId.Some? ==> IsInt64(store.maxFileId.value)
      modifies this`compacting, store`maxFileId, store`diskFiles, store`compactedDiskFiles
      ensures old(compacting) ==> r == Ok(false) && compacting && store.maxFileId == old(store.maxFileId)
      ensures !old(compacting) && old(store.maxFileId).None? ==> r == Err(NullPointer) && compacting
      ensures !old(compacting) && old(store.maxFileId).Some? ==> !compacting && store.maxFileId.Some?
      ensures r == Ok(true) <==> !old(compacting) && old(store.maxFileId).Some? && Writes(merged, renamed)
      ensures r == Ok(true) ==> store.compactedDiskFiles == old(store.compactedDiskFiles) + filesToCompact
      ensures r == Ok(true) ==> store.maxFileId.Some? && |store.diskFiles| >= 1
                                && store.diskFiles[..|store.diskFiles| - 1] == Without(old(store.diskFiles), filesToCompact)
                                && fresh(Last(store.diskFiles))
                                && Written(Last(store.diskFiles), store.dataDir, store.maxFileId.value, merged)
      ensures r != Ok(true) ==> store.diskFiles == old(store.diskFiles) && store.compactedDiskFiles == old(store.compactedDiskFiles)
    {
      if compacting {
        return Ok(false);
      }
      compacting := true;
      var fileName :- store.GetNextDiskFileName();
      var df := WriteAndOpen(fileName, merged, renamed);
      if df.Ok? {
        store.CompactDown(filesToCompact, df.value);
        r := Ok(true);
      } else {
        r := Err(df.error);
      }
      compacting := false;
    }
  }

  function Last<T>(s: seq<T>): T
    requires |s| >= 1
  {
    s[|s| - 1]
  }

  /** Writing `records` succeeds, the temporary file's rename succeeds and the new file opens. */
  predicate Writes(records: seq<KeyValue>, renamed: bool)
  {
    renamed && DiskFileWriters.WriteFile(records).Ok? && Opens(DiskFileWriters.WriteFile(records).value)
  }

  /** `df` is the open data file with id `id` in `dir`, holding the file written from `records`. */
  ghost predicate Written(df: DiskFile, dir: string, id: int, records: seq<KeyValue>)
    reads df
  {
    df.fileName == PathIn(dir, DataFileName(id)) && df.refCount == 0
    && DiskFileWriters.WriteFile(records).Ok? && df.handle == Opened(DiskFileWriters.WriteFile(records).value)
  }

  /**
   * The part `flush` and `performCompact` share: the records go through a
   * `DiskFileWriter` into `<name>.tmp`, which is renamed to `name` and
   * opened.
   */
  method WriteAndOpen(fileName: string, records: seq<KeyValue>, renamed: bool) returns (r: Result<DiskFile>)
    requires forall i | 0 <= i < |records| :: KeyValues.Valid(records[i])
    ensures r.Ok? <==> Writes(records, renamed)
    ensures !renamed && DiskFileWriters.WriteFile(records).Ok? ==> r == Err(RenameFailed)
    ensures r.Ok? ==> fresh(r.value) && r.value.fileName == fileName && r.value.refCount == 0
                      && r.value.handle == Opened(DiskFileWriters.WriteFile(records).value)
  {
    var bytes :- WriteRecords(fileName + ".tmp", records);
    if !renamed {
      return Err(RenameFailed);
    }
    r := OpenFile(fileName, bytes);
  }

  /**
   * `DefaultFlusher.flush(iter)`, given the records the iterator yields and
   * whether the rename succeeds: they are written to the next file name,
   * which is then opened and added to the live list.
   */
  method Flush(store: DiskStore, records: seq<KeyValue>, renamed: bool) returns (r: Result<()>)
    requires forall i | 0 <= i < |records| :: KeyValues.Valid(records[i])
    requires store.maxFileId.Some? ==> IsInt64(store.maxFileId.value)
    modifies store`maxFileId, store`diskFiles
    ensures old(store.maxFileId).None? ==> r == Err(NullPointer)
    ensures r.Ok? <==> old(store.maxFileId).Some? && Writes(records, renamed)
    ensures r.Ok? ==> store.maxFileId.Some? && |store.diskFiles| == |old(store.diskFiles)| + 1
                      && store.diskFiles[..|old(store.diskFiles)|] == old(store.diskFiles)
                      && fresh(Last(store.diskFiles))
                      && Written(Last(store.diskFiles), store.dataDir, store.maxFileId.value, records)
    ensures r.Err? ==> store.diskFiles == old(store.diskFiles)
  {
    var fileName :- store.GetNextDiskFileName();
    var df :- WriteAndOpen(fileName, records, renamed);
    store.AddDiskFile(df);
    r := Ok(());
  }
}
