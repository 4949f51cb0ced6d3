/**
 * The leaf list as the iterator sees it: the node an iterator stands on is a sentinel, a live leaf
 * or a tombstone, and `skipRemovedElements` rewrites the `next` of every tombstone it passes to
 * point straight at the live leaf (or the tail) the chain of tombstones ends at.
 */
module IteratorFacts {
  import opened Wrappers
  import opened Nodes
  import opened TrieShape
  import opened LeafList
  import opened ShapeEdits
  import opened TrieFacts

  /** Where an iterator may stand: a sentinel, a live leaf or a tombstone. */
  ghost predicate OnList(head: int, tail: int, order: seq<int>, rank: map<int, int>, p: int)
  {
    p == head || p == tail || p in order || p in rank
  }

  /**
   * The tests `inCollection` and `skipRemovedElements` make on the node an iterator stands on:
   * the sentinels carry their flags, and among the other leaves the tombstones are exactly those
   * whose `previous` is nil.
   */
  lemma Cursor(ns: seq<Node>, head: int, tail: int, order: seq<int>, rank: map<int, int>, clock: int, p: int)
    requires Linked(ns, head, tail, order) && Tombstones(ns, order, tail, rank, clock)
    requires OnList(head, tail, order, rank, p)
    ensures 0 <= p < |ns| && ns[p].kind.Leaf?
    ensures ns[p].kind.isHead <==> p == head
    ensures ns[p].kind.isTail <==> p == tail
    ensures p in order <==> !ns[p].kind.isHead && !ns[p].kind.isTail && ns[p].kind.previous != Nil
    ensures p in rank <==> !ns[p].kind.isHead && !ns[p].kind.isTail && ns[p].kind.previous == Nil
  {
    if p in order {
      var k :| 0 <= k < |order| && order[k] == p;
      assert LiveAt(ns, head, tail, order, k);
      if k > 0 {
        assert LiveAt(ns, head, tail, order, k - 1);
      }
      NotTomb(ns, head, tail, order, rank, clock, p);
    } else if p in rank {
      assert TombAt(ns, order, tail, rank, clock, p);
    } else {
      NotTomb(ns, head, tail, order, rank, clock, p);
    }
  }

  /**
   * The arena after `skipRemovedElements(t)`: every tombstone on the chain from `t` has its `next`
   * pointed at the node the chain resolves to.
   */
  ghost function Compressed(ns: seq<Node>, order: seq<int>, tail: int, rank: map<int, int>, clock: int, t: int): (ns': seq<Node>)
    requires Tombstones(ns, order, tail, rank, clock)
    ensures SameSkeleton(ns, ns')
    decreases if t in rank then clock - rank[t] else 0
  {
    if t in rank then
      assert TombAt(ns, order, tail, rank, clock, t);
      var ns1 := Compressed(ns, order, tail, rank, clock, ns[t].kind.next);
      assert SameShape(ns[t], ns1[t]);
      ns1[t := ns1[t].(kind := ns1[t].kind.(next := Resolve(ns, order, tail, rank, clock, t)))]
    else
      ns
  }

  /** A tombstone whose `next` is a live leaf or the tail resolves to it. */
  lemma ResolveNext(ns: seq<Node>, head: int, tail: int, order: seq<int>, rank: map<int, int>, clock: int, t: int)
    requires Linked(ns, head, tail, order) && Tombstones(ns, order, tail, rank, clock) && t in rank
    requires ns[t].kind.next in order || ns[t].kind.next == tail
    ensures Resolve(ns, order, tail, rank, clock, t) == ns[t].kind.next
  {
    assert TombAt(ns, order, tail, rank, clock, t);
    NotTomb(ns, head, tail, order, rank, clock, ns[t].kind.next);
  }

  /** Pointing the tombstone `t` straight at the node it resolves to changes the resolution of no node. */
  lemma {:induction false} ResolveRelink(ns: seq<Node>, head: int, tail: int, order: seq<int>, rank: map<int, int>,
                                         clock: int, t: int, u: int)
    requires Linked(ns, head, tail, order) && Tombstones(ns, order, tail, rank, clock) && t in rank
    ensures 0 <= t < |ns| && ns[t].kind.Leaf?
    ensures var r := Resolve(ns, order, tail, rank, clock, t);
            var ns' := ns[t := ns[t].(kind := ns[t].kind.(next := r))];
            && Tombstones(ns', order, tail, rank, clock)
            && Resolve(ns', order, tail, rank, clock, u) == Resolve(ns, order, tail, rank, clock, u)
    decreases if u in rank then clock - rank[u] else 0
  {
    assert TombAt(ns, order, tail, rank, clock, t);
    var r := Resolve(ns, order, tail, rank, clock, t);
    RelinkTomb(ns, head, tail, order, rank, clock, t, r);
    var ns' := ns[t := ns[t].(kind := ns[t].kind.(next := r))];
    if u == t {
      NotTomb(ns, head, tail, order, rank, clock, r);
      assert Resolve(ns', order, tail, rank, clock, r) == r;
    } else if u in rank {
      assert TombAt(ns, order, tail, rank, clock, u);
      ResolveRelink(ns, head, tail, order, rank, clock, t, ns[u].kind.next);
    }
  }

  /**
   * `skipRemovedElements` keeps the list and the tombstones in order and changes the resolution of
   * no node; the tombstone it starts from now points straight at its resolution.
   */
  lemma {:induction false} CompressedKeeps(ns: seq<Node>, head: int, tail: int, order: seq<int>, rank: map<int, int>,
                                           clock: int, t: int)
    requires WellFormed(ns) && Linked(ns, head, tail, order) && Tombstones(ns, order, tail, rank, clock)
    ensures var ns' := Compressed(ns, order, tail, rank, clock, t);
            && WellFormed(ns') && Linked(ns', head, tail, order) && Tombstones(ns', order, tail, rank, clock)
            && (forall u :: Resolve(ns', order, tail, rank, clock, u) == Resolve(ns, order, tail, rank, clock, u))
            && (t in rank ==> ns'[t].kind.next == Resolve(ns, order, tail, rank, clock, t))
    decreases if t in rank then clock - rank[t] else 0
  {
    if t in rank {
      assert TombAt(ns, order, tail, rank, clock, t);
      var n := ns[t].kind.next;
      CompressedKeeps(ns, head, tail, order, rank, clock, n);
      var ns1 := Compressed(ns, order, tail, rank, clock, n);
      var r := Resolve(ns, order, tail, rank, clock, t);
      assert r == Resolve(ns1, order, tail, rank, clock, t);
      var ns' := ns1[t := ns1[t].(kind := ns1[t].kind.(next := r))];
      assert ns' == Compressed(ns, order, tail, rank, clock, t);
      RelinkTomb(ns1, head, tail, order, rank, clock, t, r);
      forall u ensures Resolve(ns', order, tail, rank, clock, u) == Resolve(ns, order, tail, rank, clock, u) {
        ResolveRelink(ns1, head, tail, order, rank, clock, t, u);
      }
      forall i | 0 <= i < |ns'| ensures NodeWellFormed(ns', ns'[i]) {
        assert NodeWellFormed(ns1, ns1[i]);
      }
    }
  }

  /** `skipRemovedElements` changes only `next` links: every `previous` link stays as it was. */
  lemma {:induction false} CompressedKeepsPrevious(ns: seq<Node>, order: seq<int>, tail: int, rank: map<int, int>,
                                                   clock: int, t: int)
    requires Tombstones(ns, order, tail, rank, clock)
    ensures var ns' := Compressed(ns, order, tail, rank, clock, t);
            forall i :: 0 <= i < |ns| && ns[i].kind.Leaf? ==> ns'[i].kind.Leaf? && ns'[i].kind.previous == ns[i].kind.previous
    decreases if t in rank then clock - rank[t] else 0
  {
    if t in rank {
      assert TombAt(ns, order, tail, rank, clock, t);
      CompressedKeepsPrevious(ns, order, tail, rank, clock, ns[t].kind.next);
    }
  }

  /**
   * One step back along `previous` from the head, the tail or a live leaf `n`: the node `q` it
   * reaches (`n` itself when the link is nil) and `r`, None for a nil link and otherwise whether
   * `q` is not the head. The head's link is nil, a live leaf's leads to its neighbour in `order`,
   * and the tail's to the last live leaf (nil or the head when there is none).
   */
  lemma BackStep(ns: seq<Node>, head: int, tail: int, order: seq<int>, rank: map<int, int>, clock: int, n: int)
    returns (q: int, r: Option<bool>)
    requires Linked(ns, head, tail, order) && Tombstones(ns, order, tail, rank, clock)
    requires n == head || n == tail || n in order
    ensures 0 <= n < |ns| && ns[n].kind.Leaf?
    ensures ns[n].kind.previous == Nil ==> q == n && r.None?
    ensures ns[n].kind.previous != Nil ==>
              q == ns[n].kind.previous && 0 <= q < |ns| && ns[q].kind.Leaf? && r == Some(!ns[q].kind.isHead)
    ensures OnList(head, tail, order, rank, q)
    ensures n == head ==> r.None? && q == n
    ensures forall k :: 0 <= k < |order| && order[k] == n ==> q == Pred(order, head, k) && r == Some(k > 0)
    ensures n == tail && order != [] ==> q == order[|order| - 1] && r == Some(true)
    ensures n == tail && order == [] && ns[tail].kind.previous == Nil ==> r.None? && q == n
    ensures n == tail && order == [] && ns[tail].kind.previous != Nil ==> r == Some(false) && q == head
  {
    Cursor(ns, head, tail, order, rank, clock, n);
    var p := ns[n].kind.previous;
    if p == Nil {
      q, r := n, None;
    } else {
      assert OnList(head, tail, order, rank, p) by {
        if n in order {
          var k :| 0 <= k < |order| && order[k] == n;
          assert LiveAt(ns, head, tail, order, k);
        }
      }
      Cursor(ns, head, tail, order, rank, clock, p);
      q, r := p, Some(!ns[p].kind.isHead);
    }
    forall k | 0 <= k < |order| && order[k] == n ensures q == Pred(order, head, k) && r == Some(k > 0) {
      assert LiveAt(ns, head, tail, order, k);
      if k > 0 {
        assert LiveAt(ns, head, tail, order, k - 1);
      }
    }
    if n == tail && order != [] {
      assert LiveAt(ns, head, tail, order, |order| - 1);
    }
  }


  /** The list holds the same strings, at the same leaves, when only list links change. */
  lemma StoredSkeleton(ns: seq<Node>, ns': seq<Node>, order: seq<int>, E: set<string>, na: map<seq<int>, int>)
    requires Stored(ns, order, E, na) && SameSkeleton(ns, ns')
    ensures Stored(ns', order, E, na) && ContentsOf(ns', order) == ContentsOf(ns, order)
  {
    forall k | 0 <= k < |order| ensures ns'[order[k]].element == ns[order[k]].element {
      assert SameShape(ns[order[k]], ns'[order[k]]);
    }
    assert ContentsOf(ns', order) == ContentsOf(ns, order);
  }

  /**
   * After `remove` has unlinked the leaf `l` at position `k` of `O`, the tombstone it leaves resolves
   * to the node after position `k - 1` of the shorter list: the iterator standing on it moves on to
   * the string that followed the removed one.
   */
  lemma RemovedResolves(ns: seq<Node>, head: int, tail: int, O: seq<int>, order: seq<int>, rank: map<int, int>,
                        clock: int, E: set<string>, elements: set<string>, x: string, k: int, l: int)
    requires Linked(ns, head, tail, order) && Tombstones(ns, order, tail, rank, clock) && l in rank
    requires 0 <= k < |O| && O[k] == l && Distinct(O) && order == O[..k] + O[k + 1..] && elements == E - {x}
    requires 0 <= l < |ns| && ns[l].kind.Leaf? && ns[l].kind.next == Succ(O, tail, k)
    ensures forall j :: 0 <= j < |O| && O[j] == l ==>
              && order == O[..j] + O[j + 1..] && elements == E - {x}
              && Resolve(ns, order, tail, rank, clock, l) == Succ(order, tail, j - 1)
  {
    if k + 1 < |O| {
      assert order[k] == O[k + 1];
    }
    ResolveNext(ns, head, tail, order, rank, clock, l);
    forall j | 0 <= j < |O| && j != k ensures O[j] != l {
      if j < k {
        assert DistinctAt(O, j, k);
      } else {
        assert DistinctAt(O, k, j);
      }
    }
  }

  /** One more element of `s` extends its prefix of length `n`. */
  lemma PrefixStep(s: seq<string>, n: int)
    requires 0 <= n < |s|
    ensures s[..n] + [s[n]] == s[..n + 1]
  {
  }
}
