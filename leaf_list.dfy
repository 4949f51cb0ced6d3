/**
 * The doubly-linked list of leaves between the head and tail sentinels, over the arena. The ghost
 * `order` is the sequence of live leaves from head to tail; a removed leaf (a tombstone) keeps its
 * `next` link and has its `previous` cleared. Each tombstone carries the time of its removal, so that
 * following `next` links from a tombstone reaches a live leaf or the tail.
 */
module LeafList {
  import opened Nodes

  /** The node after position `k` of `order` (position -1 is the head). */
  function Succ(order: seq<int>, tail: int, k: int): int
    requires -1 <= k < |order|
  {
    if k + 1 < |order| then order[k + 1] else tail
  }

  /** The node before position `k` of `order`. */
  function Pred(order: seq<int>, head: int, k: int): int
    requires 0 <= k < |order|
  {
    if k > 0 then order[k - 1] else head
  }

  /** Positions `i` and `j` of `order` hold different nodes: the instances of `Distinct`, named explicitly. */
  ghost predicate DistinctAt(order: seq<int>, i: int, j: int)
    requires 0 <= i < |order| && 0 <= j < |order|
  {
    order[i] != order[j]
  }

  ghost predicate Distinct(order: seq<int>)
  {
    forall i, j {:trigger DistinctAt(order, i, j)} :: 0 <= i < j < |order| ==> DistinctAt(order, i, j)
  }

  /** The live leaf at position `k` links to its neighbours in `order`. */
  ghost predicate LiveAt(ns: seq<Node>, head: int, tail: int, order: seq<int>, k: int)
    requires 0 <= k < |order|
  {
    && 0 <= order[k] < |ns|
    && ns[order[k]].kind.Leaf? && !ns[order[k]].kind.isHead && !ns[order[k]].kind.isTail
    && ns[order[k]].kind.next == Succ(order, tail, k)
    && ns[order[k]].kind.previous == Pred(order, head, k)
  }

  /**
   * The list invariant: head, the live leaves of `order`, tail, linked forwards; every live leaf is
   * also linked backwards; the tail's `previous` is the last live leaf (before any insertion it is
   * nil, after the last removal it can be the head); the tail links back to the head.
   */
  ghost predicate Linked(ns: seq<Node>, head: int, tail: int, order: seq<int>)
  {
    && 0 <= head < |ns| && 0 <= tail < |ns| && head != tail
    && ns[head].kind.Leaf? && ns[head].kind.isHead && !ns[head].kind.isTail
    && ns[head].kind.previous == Nil && ns[head].kind.next == Succ(order, tail, -1)
    && ns[tail].kind.Leaf? && ns[tail].kind.isTail && !ns[tail].kind.isHead && ns[tail].kind.next == head
    && (order == [] ==> ns[tail].kind.previous == Nil || ns[tail].kind.previous == head)
    && (order != [] ==> ns[tail].kind.previous == order[|order| - 1])
    && Distinct(order)
    && forall k :: 0 <= k < |order| ==> LiveAt(ns, head, tail, order, k)
  }

  /** A tombstone: a removed leaf, with its removal time and a `next` leading on to later nodes. */
  ghost predicate TombAt(ns: seq<Node>, order: seq<int>, tail: int, rank: map<int, int>, clock: int, t: int)
    requires t in rank
  {
    && 0 <= t < |ns| && ns[t].kind.Leaf? && !ns[t].kind.isHead && !ns[t].kind.isTail
    && ns[t].kind.previous == Nil
    && 0 <= rank[t] < clock
    && var n := ns[t].kind.next;
       (n !in rank && (n in order || n == tail)) || (n in rank && rank[t] < rank[n])
  }

  ghost predicate Tombstones(ns: seq<Node>, order: seq<int>, tail: int, rank: map<int, int>, clock: int)
  {
    forall t :: t in rank ==> TombAt(ns, order, tail, rank, clock, t)
  }

  /** The node reached from `t` by following `next` past tombstones. */
  ghost function Resolve(ns: seq<Node>, order: seq<int>, tail: int, rank: map<int, int>, clock: int, t: int): (r: int)
    requires Tombstones(ns, order, tail, rank, clock)
    ensures t !in rank ==> r == t
    ensures t in rank ==> r in order || r == tail
    decreases if t in rank then clock - rank[t] else 0
  {
    if t in rank then
      assert TombAt(ns, order, tail, rank, clock, t);
      Resolve(ns, order, tail, rank, clock, ns[t].kind.next)
    else t
  }

  /** The arena after `AddAfter(l, other)`. */
  ghost function Spliced(ns: seq<Node>, l: int, other: int): seq<Node>
    requires 0 <= l < |ns| && ns[l].kind.Leaf? && 0 <= other < |ns| && ns[other].kind.Leaf?
    requires 0 <= ns[other].kind.next < |ns| && ns[ns[other].kind.next].kind.Leaf?
  {
    var succ := ns[other].kind.next;
    var n1 := ns[l := ns[l].(kind := ns[l].kind.(next := succ))];
    var n2 := n1[other := n1[other].(kind := n1[other].kind.(next := l))];
    var n3 := n2[l := n2[l].(kind := n2[l].kind.(previous := other))];
    var last := n3[l].kind.next;
    n3[last := n3[last].(kind := n3[last].kind.(previous := l))]
  }

  /** Two arenas agree on the list fields and the elements of their common nodes. */
  ghost predicate SameLinks(ns: seq<Node>, ns': seq<Node>)
  {
    && |ns| <= |ns'|
    && forall i :: 0 <= i < |ns| ==> ns'[i].kind == ns[i].kind && ns'[i].element == ns[i].element
  }

  // ---------------------------------------------------------------------------------------
  // Frames
  // ---------------------------------------------------------------------------------------

  lemma LinkedFrame(ns: seq<Node>, ns': seq<Node>, head: int, tail: int, order: seq<int>)
    requires Linked(ns, head, tail, order) && SameLinks(ns, ns')
    ensures Linked(ns', head, tail, order)
  {
    forall k | 0 <= k < |order| ensures LiveAt(ns', head, tail, order, k) {
      assert LiveAt(ns, head, tail, order, k);
    }
  }

  lemma TombstonesFrame(ns: seq<Node>, ns': seq<Node>, order: seq<int>, tail: int, rank: map<int, int>, clock: int)
    requires Tombstones(ns, order, tail, rank, clock) && SameLinks(ns, ns')
    ensures Tombstones(ns', order, tail, rank, clock)
  {
    forall t | t in rank ensures TombAt(ns', order, tail, rank, clock, t) {
      assert TombAt(ns, order, tail, rank, clock, t);
    }
  }

  /** A live leaf, the head and the tail are not tombstones. */
  lemma NotTomb(ns: seq<Node>, head: int, tail: int, order: seq<int>, rank: map<int, int>, clock: int, n: int)
    requires Linked(ns, head, tail, order) && Tombstones(ns, order, tail, rank, clock)
    requires n == head || n == tail || n in order
    ensures n !in rank
  {
    if n in order {
      var k :| 0 <= k < |order| && order[k] == n;
      assert LiveAt(ns, head, tail, order, k);
      if k > 0 {
        assert LiveAt(ns, head, tail, order, k - 1);
      }
      assert ns[n].kind.previous != Nil;
    }
  }

  // ---------------------------------------------------------------------------------------
  // Splicing a new leaf in
  // ---------------------------------------------------------------------------------------

  /** `Spliced` changes exactly the three nodes it relinks. */
  lemma SplicedAt(ns: seq<Node>, l: int, other: int)
    requires 0 <= l < |ns| && ns[l].kind.Leaf? && 0 <= other < |ns| && ns[other].kind.Leaf?
    requires 0 <= ns[other].kind.next < |ns| && ns[ns[other].kind.next].kind.Leaf?
    requires l != other && l != ns[other].kind.next && other != ns[other].kind.next
    ensures var s, ns' := ns[other].kind.next, Spliced(ns, l, other);
            && |ns'| == |ns|
            && (forall i :: 0 <= i < |ns| && i != l && i != other && i != s ==> ns'[i] == ns[i])
            && ns'[other] == ns[other].(kind := ns[other].kind.(next := l))
            && ns'[l] == ns[l].(kind := ns[l].kind.(next := s, previous := other))
            && ns'[s] == ns[s].(kind := ns[s].kind.(previous := l))
  {
  }

  /** Where a new leaf goes after position `j`: three distinct leaves, the new one between its neighbours. */
  lemma InsertSite(ns: seq<Node>, head: int, tail: int, order: seq<int>, j: int, l: int)
    requires Linked(ns, head, tail, order) && -1 <= j < |order|
    requires 0 <= l < |ns| && l != head && l != tail && l !in order
    ensures var other := if j < 0 then head else order[j];
            && 0 <= other < |ns| && ns[other].kind.Leaf? && ns[other].kind.next == Succ(order, tail, j)
            && 0 <= ns[other].kind.next < |ns| && ns[ns[other].kind.next].kind.Leaf?
            && l != other && l != ns[other].kind.next && other != ns[other].kind.next
  {
    if j >= 0 {
      assert LiveAt(ns, head, tail, order, j);
    }
    if j + 1 < |order| {
      assert LiveAt(ns, head, tail, order, j + 1);
      if j >= 0 {
        assert DistinctAt(order, j, j + 1);
      }
    }
  }

  /** A node not on the list, put into it after position `j`, keeps the list free of repeats. */
  lemma DistinctInsert(order: seq<int>, j: int, l: int)
    requires Distinct(order) && -1 <= j < |order| && l !in order
    ensures Distinct(order[..j + 1] + [l] + order[j + 1..])
  {
    var order' := order[..j + 1] + [l] + order[j + 1..];
    forall a, b | 0 <= a < b < |order'| ensures DistinctAt(order', a, b) {
      var a0 := if a <= j then a else a - 1;
      var b0 := if b <= j then b else b - 1;
      if b == j + 1 {
        assert order'[a] == order[a];
      } else if a == j + 1 {
        assert order'[b] == order[b0];
      } else {
        assert order'[a] == order[a0] && order'[b] == order[b0];
        assert DistinctAt(order, a0, b0);
      }
    }
  }

  /** After the splice every live leaf, the new one included, links to its neighbours in the longer order. */
  lemma LiveInsert(ns: seq<Node>, head: int, tail: int, order: seq<int>, j: int, l: int, other: int, ns': seq<Node>, order': seq<int>)
    requires Linked(ns, head, tail, order) && -1 <= j < |order|
    requires 0 <= l < |ns| && ns[l].kind.Leaf? && !ns[l].kind.isHead && !ns[l].kind.isTail
    requires l != head && l != tail && l !in order
    requires other == if j < 0 then head else order[j]
    requires 0 <= other < |ns| && ns[other].kind.Leaf? && ns[other].kind.next == Succ(order, tail, j)
    requires 0 <= ns[other].kind.next < |ns| && ns[ns[other].kind.next].kind.Leaf? && other != ns[other].kind.next
    requires ns' == Spliced(ns, l, other) && order' == order[..j + 1] + [l] + order[j + 1..]
    ensures forall k :: 0 <= k < |order'| ==> LiveAt(ns', head, tail, order', k)
  {
    SplicedAt(ns, l, other);
    assert forall k :: 0 <= k <= j ==> order'[k] == order[k];
    assert order'[j + 1] == l;
    assert forall k :: j + 1 < k < |order'| ==> order'[k] == order[k - 1];
    forall k | 0 <= k < |order'| ensures LiveAt(ns', head, tail, order', k) {
      if k < j + 1 {
        assert LiveAt(ns, head, tail, order, k);
        if k < j {
          assert DistinctAt(order, k, j);
        }
        if j + 1 < |order| {
          assert DistinctAt(order, k, j + 1);
        }
      } else if k > j + 1 {
        assert LiveAt(ns, head, tail, order, k - 1);
        if j >= 0 {
          assert DistinctAt(order, j, k - 1);
        }
        if k - 1 > j + 1 {
          assert DistinctAt(order, j + 1, k - 1);
        }
      }
    }
  }

  /** Splicing a fresh leaf in after position `j` (after the head when `j` is -1) keeps the list linked. */
  lemma LinkedInsert(ns: seq<Node>, head: int, tail: int, order: seq<int>, j: int, l: int)
    requires Linked(ns, head, tail, order) && -1 <= j < |order|
    requires 0 <= l < |ns| && ns[l].kind.Leaf? && !ns[l].kind.isHead && !ns[l].kind.isTail
    requires l != head && l != tail && l !in order
    ensures var other := if j < 0 then head else order[j];
            && 0 <= other < |ns| && ns[other].kind.Leaf? && ns[other].kind.next == Succ(order, tail, j)
            && 0 <= ns[other].kind.next < |ns| && ns[ns[other].kind.next].kind.Leaf?
            && Linked(Spliced(ns, l, other), head, tail, order[..j + 1] + [l] + order[j + 1..])
  {
    var other := if j < 0 then head else order[j];
    if j >= 0 {
      assert LiveAt(ns, head, tail, order, j);
    }
    var s := Succ(order, tail, j);
    if j + 1 < |order| {
      assert LiveAt(ns, head, tail, order, j + 1);
    }
    assert other != s by {
      if j >= 0 && j + 1 < |order| {
        assert DistinctAt(order, j, j + 1);
      } else if j >= 0 {
        assert LiveAt(ns, head, tail, order, j);
      }
    }
    SplicedAt(ns, l, other);
    var ns' := Spliced(ns, l, other);
    var order' := order[..j + 1] + [l] + order[j + 1..];
    assert |order'| == |order| + 1;
    assert forall k :: 0 <= k <= j ==> order'[k] == order[k];
    assert order'[j + 1] == l;
    assert forall k :: j + 1 < k < |order'| ==> order'[k] == order[k - 1];
    DistinctInsert(order, j, l);
    LiveInsert(ns, head, tail, order, j, l, other, ns', order');
    if order != [] {
      if j + 1 < |order| {
        assert LiveAt(ns, head, tail, order, |order| - 1);
        assert order[|order| - 1] == order'[|order'| - 1];
      }
    }
  }

  /** Splicing in a leaf that is not a tombstone leaves every tombstone as it was. */
  lemma TombstonesInsert(ns: seq<Node>, head: int, tail: int, order: seq<int>, rank: map<int, int>, clock: int, j: int, l: int)
    requires Linked(ns, head, tail, order) && Tombstones(ns, order, tail, rank, clock) && -1 <= j < |order|
    requires 0 <= l < |ns| && ns[l].kind.Leaf? && l != head && l != tail && l !in order && l !in rank
    requires var other := if j < 0 then head else order[j];
             && 0 <= other < |ns| && ns[other].kind.Leaf? && ns[other].kind.next == Succ(order, tail, j)
             && 0 <= ns[other].kind.next < |ns| && ns[ns[other].kind.next].kind.Leaf?
             && l != other && l != ns[other].kind.next && other != ns[other].kind.next
    ensures Tombstones(Spliced(ns, l, if j < 0 then head else order[j]), order[..j + 1] + [l] + order[j + 1..], tail, rank, clock)
  {
    var other := if j < 0 then head else order[j];
    var s := ns[other].kind.next;
    SplicedAt(ns, l, other);
    var ns' := Spliced(ns, l, other);
    var order' := order[..j + 1] + [l] + order[j + 1..];
    if j >= 0 {
      NotTomb(ns, head, tail, order, rank, clock, order[j]);
    }
    if j + 1 < |order| {
      NotTomb(ns, head, tail, order, rank, clock, order[j + 1]);
    }
    NotTomb(ns, head, tail, order, rank, clock, head);
    NotTomb(ns, head, tail, order, rank, clock, tail);
    forall t | t in rank ensures TombAt(ns', order', tail, rank, clock, t) {
      assert TombAt(ns, order, tail, rank, clock, t);
      var n := ns[t].kind.next;
      if n in order {
        var k :| 0 <= k < |order| && order[k] == n;
        if k <= j {
          assert order'[k] == n;
        } else {
          assert order'[k + 1] == n;
        }
      }
    }
  }

  // ---------------------------------------------------------------------------------------
  // Unlinking a live leaf
  // ---------------------------------------------------------------------------------------

  lemma UnlinkedAt(ns: seq<Node>, l: int)
    requires 0 <= l < |ns| && ns[l].kind.Leaf?
    requires 0 <= ns[l].kind.previous < |ns| && ns[ns[l].kind.previous].kind.Leaf?
    requires 0 <= ns[l].kind.next < |ns| && ns[ns[l].kind.next].kind.Leaf?
    requires l != ns[l].kind.previous && l != ns[l].kind.next && ns[l].kind.previous != ns[l].kind.next
    ensures var p, s, ns' := ns[l].kind.previous, ns[l].kind.next, Unlinked(ns, l);
            && |ns'| == |ns|
            && (forall i :: 0 <= i < |ns| && i != l && i != p && i != s ==> ns'[i] == ns[i])
            && ns'[p] == ns[p].(kind := ns[p].kind.(next := s))
            && ns'[l] == ns[l].(kind := ns[l].kind.(previous := Nil))
            && ns'[s] == ns[s].(kind := ns[s].kind.(previous := p))
  {
  }

  /** The neighbours of the live leaf at position `k`, as `Remove` needs them. */
  lemma Neighbours(ns: seq<Node>, head: int, tail: int, order: seq<int>, k: int)
    requires Linked(ns, head, tail, order) && 0 <= k < |order|
    ensures LinkedAround(ns, head, tail, order, k)
    ensures var l := order[k];
            && l != ns[l].kind.previous && l != ns[l].kind.next && ns[l].kind.previous != ns[l].kind.next
            && ns[l].kind.previous != tail && ns[l].kind.next != head
  {
    assert LiveAt(ns, head, tail, order, k);
    if k > 0 {
      assert LiveAt(ns, head, tail, order, k - 1);
      assert DistinctAt(order, k - 1, k);
    }
    if k + 1 < |order| {
      assert LiveAt(ns, head, tail, order, k + 1);
      assert DistinctAt(order, k, k + 1);
      if k > 0 {
        assert DistinctAt(order, k - 1, k + 1);
      }
    }
  }

  /** Unlinking the live leaf at position `k` deletes it from `order`. */
  lemma LinkedDelete(ns: seq<Node>, head: int, tail: int, order: seq<int>, k: int)
    requires Linked(ns, head, tail, order) && 0 <= k < |order|
    ensures LinkedAround(ns, head, tail, order, k)
    ensures Linked(Unlinked(ns, order[k]), head, tail, order[..k] + order[k + 1..])
  {
    Neighbours(ns, head, tail, order, k);
    var l := order[k];
    UnlinkedAt(ns, l);
    var ns' := Unlinked(ns, l);
    var order' := order[..k] + order[k + 1..];
    assert |order'| == |order| - 1;
    assert forall i :: 0 <= i < k ==> order'[i] == order[i];
    assert forall i :: k <= i < |order'| ==> order'[i] == order[i + 1];
    assert Distinct(order') by {
      forall a, b | 0 <= a < b < |order'| ensures DistinctAt(order', a, b) {
        assert DistinctAt(order, if a < k then a else a + 1, if b < k then b else b + 1);
      }
    }
    forall i | 0 <= i < |order'| ensures LiveAt(ns', head, tail, order', i) {
      if i < k {
        assert LiveAt(ns, head, tail, order, i);
        assert DistinctAt(order, i, k);
        if i < k - 1 {
          assert DistinctAt(order, i, k - 1);
        }
        if k + 1 < |order| {
          assert DistinctAt(order, i, k + 1);
        }
      } else {
        assert LiveAt(ns, head, tail, order, i + 1);
        assert DistinctAt(order, k, i + 1);
        if i + 1 > k + 1 {
          assert DistinctAt(order, k + 1, i + 1);
        }
        if k > 0 {
          assert DistinctAt(order, k - 1, i + 1);
        }
      }
    }
    if k < |order| - 1 {
      assert LiveAt(ns, head, tail, order, k + 1);
      assert order'[|order'| - 1] == order[|order| - 1];
    }
    if k > 0 {
      assert LiveAt(ns, head, tail, order, 0);
      assert LiveAt(ns, head, tail, order, k - 1);
      assert order'[0] == order[0];
    }
  }

  /** The shape `Remove` needs, stated once for callers of LinkedDelete. */
  ghost predicate LinkedAround(ns: seq<Node>, head: int, tail: int, order: seq<int>, k: int)
    requires 0 <= k < |order|
  {
    var l := order[k];
    && 0 <= l < |ns| && ns[l].kind.Leaf?
    && ns[l].kind.previous == Pred(order, head, k) && ns[l].kind.next == Succ(order, tail, k)
    && 0 <= ns[l].kind.previous < |ns| && ns[ns[l].kind.previous].kind.Leaf?
    && 0 <= ns[l].kind.next < |ns| && ns[ns[l].kind.next].kind.Leaf?
  }

  /** The unlinked leaf becomes the newest tombstone. */
  lemma TombstonesDelete(ns: seq<Node>, head: int, tail: int, order: seq<int>, rank: map<int, int>, clock: int, k: int)
    requires Linked(ns, head, tail, order) && Tombstones(ns, order, tail, rank, clock) && 0 <= k < |order| && clock >= 0
    requires LinkedAround(ns, head, tail, order, k)
    ensures Tombstones(Unlinked(ns, order[k]), order[..k] + order[k + 1..], tail, rank[order[k] := clock], clock + 1)
  {
    Neighbours(ns, head, tail, order, k);
    var l := order[k];
    UnlinkedAt(ns, l);
    var ns' := Unlinked(ns, l);
    var order' := order[..k] + order[k + 1..];
    var rank' := rank[l := clock];
    var p, s := Pred(order, head, k), Succ(order, tail, k);
    NotTomb(ns, head, tail, order, rank, clock, l);
    NotTomb(ns, head, tail, order, rank, clock, p);
    NotTomb(ns, head, tail, order, rank, clock, s);
    assert LiveAt(ns, head, tail, order, k);
    if k + 1 < |order| {
      assert order'[k] == s;
    }
    forall t | t in rank' ensures TombAt(ns', order', tail, rank', clock + 1, t) {
      if t != l {
        assert TombAt(ns, order, tail, rank, clock, t);
        var n := ns[t].kind.next;
        if n in order && n != l {
          var i :| 0 <= i < |order| && order[i] == n;
          if i < k {
            assert order'[i] == n;
          } else {
            assert i != k;
            assert order'[i - 1] == n;
          }
        }
      }
    }
  }

  // ---------------------------------------------------------------------------------------
  // Relinking a tombstone
  // ---------------------------------------------------------------------------------------

  /** Pointing a tombstone's `next` at a live leaf or the tail keeps both invariants. */
  lemma RelinkTomb(ns: seq<Node>, head: int, tail: int, order: seq<int>, rank: map<int, int>, clock: int, t: int, n: int)
    requires Linked(ns, head, tail, order) && Tombstones(ns, order, tail, rank, clock)
    requires t in rank && (n in order || n == tail)
    ensures 0 <= t < |ns| && ns[t].kind.Leaf?
    ensures var ns' := ns[t := ns[t].(kind := ns[t].kind.(next := n))];
            Linked(ns', head, tail, order) && Tombstones(ns', order, tail, rank, clock)
  {
    assert TombAt(ns, order, tail, rank, clock, t);
    var ns' := ns[t := ns[t].(kind := ns[t].kind.(next := n))];
    assert t != head && t != tail;
    assert t !in order by {
      if t in order {
        NotTomb(ns, head, tail, order, rank, clock, t);
      }
    }
    forall k | 0 <= k < |order| ensures LiveAt(ns', head, tail, order, k) {
      assert LiveAt(ns, head, tail, order, k);
    }
    NotTomb(ns, head, tail, order, rank, clock, n);
    forall u | u in rank ensures TombAt(ns', order, tail, rank, clock, u) {
      assert TombAt(ns, order, tail, rank, clock, u);
    }
  }
}
