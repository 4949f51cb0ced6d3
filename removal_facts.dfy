/**
 * What a removal does to the trie's state, over plain values. Unlinking the leaf of a stored string
 * drops it from the sorted list and makes it the newest tombstone. The string's path then becomes
 * the path being torn down. Each step of the pruning loop detaches the childless node at the end
 * of that path. The loop stops at the root or at a node that still has a child, and the tree is
 * then whole again.
 */
module RemovalFacts {
  import opened Digitizer
  import opened Nodes
  import opened TrieShape
  import opened LeafList
  import opened ShapeEdits
  import opened TrieFacts

  /**
   * The state while the nodes of the removed string `x` are being pruned. The list no longer
   * holds `x`. The node `node` sits at the first `level` digits of `x`, and those digits are the
   * path being torn down.
   */
  ghost predicate PruningOn(ns: seq<Node>, cap: int, head: int, tail: int, order: seq<int>, rank: map<int, int>,
                            clock: int, E: set<string>, na: map<seq<int>, int>, root: int, x: string, level: int,
                            node: int)
  {
    && Linked(ns, head, tail, order) && Tombstones(ns, order, tail, rank, clock) && clock >= 0
    && Stored(ns, order, E, na)
    && Sub(E, Digits(x)) == {} && InAlphabet(x, cap - 1)
    && 0 <= level <= |Digits(x)|
    && Digits(x)[..level] in na && na[Digits(x)[..level]] == node && 0 <= node < |ns|
    && [] in na && na[[]] == root
    && (ns[node].isRoot <==> level == 0)
    && Tree(ns, View(cap, E, na), Digits(x)[..level])
  }

  /** The leaf of a stored string is on the list. */
  lemma StoredLeaf(ns: seq<Node>, order: seq<int>, E: set<string>, na: map<seq<int>, int>, x: string)
    returns (k: int)
    requires Stored(ns, order, E, na) && x in E
    ensures 0 <= k < |order| && ns[order[k]].element == x && Digits(x) in na && na[Digits(x)] == order[k]
  {
    var s := ContentsOf(ns, order);
    assert x in s;
    k :| 0 <= k < |s| && s[k] == x;
  }

  /** `Remove` changes only the list links, and only to nodes of the arena or Nil. */
  lemma UnlinkedSkeleton(ns: seq<Node>, l: int)
    requires WellFormed(ns) && 0 <= l < |ns| && ns[l].kind.Leaf?
    requires 0 <= ns[l].kind.previous < |ns| && ns[ns[l].kind.previous].kind.Leaf?
    requires 0 <= ns[l].kind.next < |ns| && ns[ns[l].kind.next].kind.Leaf?
    requires l != ns[l].kind.previous && l != ns[l].kind.next && ns[l].kind.previous != ns[l].kind.next
    ensures SameSkeleton(ns, Unlinked(ns, l)) && WellFormed(Unlinked(ns, l))
  {
    UnlinkedAt(ns, l);
    var ns' := Unlinked(ns, l);
    forall i | 0 <= i < |ns'| ensures NodeWellFormed(ns', ns'[i]) {
      assert NodeWellFormed(ns, ns[i]);
    }
  }

  /** The list without the leaf at position `k` holds the other strings, still sorted. */
  lemma StoredDelete(ns: seq<Node>, ns': seq<Node>, order: seq<int>, E: set<string>, na: map<seq<int>, int>, k: int)
    requires Stored(ns, order, E, na) && SameSkeleton(ns, ns') && 0 <= k < |order|
    ensures Stored(ns', order[..k] + order[k + 1..], E - {ns[order[k]].element}, na)
  {
    var s := ContentsOf(ns, order);
    DeleteContents(ns, ns', order, k);
    SortedDelete(s, k);
    SetDelete(s, k, s[..k] + s[k + 1..]);
    DeleteLeaves(ns, ns', order, na, k);
  }

  /** The positions of a list with position `k` dropped. */
  lemma DeletePositions<T>(order: seq<T>, k: int)
    requires 0 <= k < |order|
    ensures var order' := order[..k] + order[k + 1..];
            && |order'| == |order| - 1
            && forall i :: 0 <= i < |order'| ==> order'[i] == (if i < k then order[i] else order[i + 1])
  {
  }

  /** The strings along the list after dropping position `k`. */
  lemma DeleteContents(ns: seq<Node>, ns': seq<Node>, order: seq<int>, k: int)
    requires SameSkeleton(ns, ns') && 0 <= k < |order|
    requires forall i :: 0 <= i < |order| ==> 0 <= order[i] < |ns|
    ensures var order' := order[..k] + order[k + 1..];
            && (forall i :: 0 <= i < |order'| ==> 0 <= order'[i] < |ns'|)
            && ContentsOf(ns', order') == ContentsOf(ns, order)[..k] + ContentsOf(ns, order)[k + 1..]
  {
    var order' := order[..k] + order[k + 1..];
    DeletePositions(order, k);
    var s, t := ContentsOf(ns, order), ContentsOf(ns, order)[..k] + ContentsOf(ns, order)[k + 1..];
    forall i | 0 <= i < |order'| ensures 0 <= order'[i] < |ns'| && ns'[order'[i]].element == t[i] {
      assert SameShape(ns[order'[i]], ns'[order'[i]]);
    }
  }

  /** A sorted run with position `k` dropped, as `t`, holds its strings but `s[k]`. */
  lemma SetDelete(s: seq<string>, k: int, t: seq<string>)
    requires StrictlySorted(s) && 0 <= k < |s| && t == s[..k] + s[k + 1..]
    ensures (set e | e in t) == (set e | e in s) - {s[k]}
  {
    assert s == s[..k] + [s[k]] + s[k + 1..];
    forall e ensures e in t <==> e in s[..k] || e in s[k + 1..] {
    }
    forall e ensures e in s <==> e in s[..k] || e == s[k] || e in s[k + 1..] {
      assert e in s <==> e in s[..k] + [s[k]] + s[k + 1..];
    }
    assert s[k] !in s[..k] by {
      forall i | 0 <= i < k ensures s[..k][i] != s[k] {
        SortedDistinct(s, i, k);
      }
    }
    assert s[k] !in s[k + 1..] by {
      var r := s[k + 1..];
      forall i | 0 <= i < |r| ensures r[i] != s[k] {
        SortedDistinct(s, k + 1 + i, k);
      }
    }
  }

  /** Every leaf of the shortened list is still the leaf the tree has for its string. */
  lemma DeleteLeaves(ns: seq<Node>, ns': seq<Node>, order: seq<int>, na: map<seq<int>, int>, k: int)
    requires SameSkeleton(ns, ns') && 0 <= k < |order|
    requires forall i :: 0 <= i < |order| ==> 0 <= order[i] < |ns|
    requires forall i :: 0 <= i < |order| ==>
               Digits(ns[order[i]].element) in na && na[Digits(ns[order[i]].element)] == order[i]
    ensures var order' := order[..k] + order[k + 1..];
            forall i :: 0 <= i < |order'| ==>
              0 <= order'[i] < |ns'| && Digits(ns'[order'[i]].element) in na && na[Digits(ns'[order'[i]].element)] == order'[i]
  {
    var order' := order[..k] + order[k + 1..];
    DeletePositions(order, k);
    forall i | 0 <= i < |order'|
      ensures 0 <= order'[i] < |ns'| && Digits(ns'[order'[i]].element) in na && na[Digits(ns'[order'[i]].element)] == order'[i]
    {
      assert SameShape(ns[order'[i]], ns'[order'[i]]);
    }
  }

  /**
   * Unlinking the leaf at position `k` removes its string from the list, makes the leaf the
   * newest tombstone and turns the string's path into the path being torn down.
   */
  /** What removing the leaf at position `k` of the list needs of a valid trie. */
  ghost predicate Removable(ns: seq<Node>, head: int, tail: int, cap: int, order: seq<int>, rank: map<int, int>,
                            clock: int, E: set<string>, na: map<seq<int>, int>, root: int, k: int)
  {
    && clock >= 0 && Linked(ns, head, tail, order) && Tombstones(ns, order, tail, rank, clock)
    && Stored(ns, order, E, na) && Tree(ns, View(cap, E, na), []) && [] in na && na[[]] == root
    && 0 <= k < |order| && LinkedAround(ns, head, tail, order, k)
  }

  lemma UnlinkStep(ns: seq<Node>, ns': seq<Node>, head: int, tail: int, cap: int, order: seq<int>, rank: map<int, int>,
                   clock: int, E: set<string>, na: map<seq<int>, int>, root: int, k: int, l: int,
                   order': seq<int>, rank': map<int, int>, clock': int, E': set<string>, x: string,
                   na': map<seq<int>, int>, root': int)
    requires Removable(ns, head, tail, cap, order, rank, clock, E, na, root, k) && na' == na && root' == root
    requires l == order[k] && ns' == Unlinked(ns, l) && x == ns[l].element
    requires order' == order[..k] + order[k + 1..] && rank' == rank[l := clock] && clock' == clock + 1
    requires E' == E - {x}
    ensures x in E
    ensures PruningOn(ns', cap, head, tail, order', rank', clock', E', na', root', x, |Digits(x)|, l)
  {
    var o := UnlinkList(ns, head, tail, order, rank, clock, E, na, k);
    UnlinkTree(ns, Unlinked(ns, l), View(cap, E, na), x, l);
  }

  /** The list part of `UnlinkStep`. */
  lemma UnlinkList(ns: seq<Node>, head: int, tail: int, order: seq<int>, rank: map<int, int>, clock: int,
                   E: set<string>, na: map<seq<int>, int>, k: int)
    returns (order': seq<int>)
    requires clock >= 0 && WellFormed(ns) && Linked(ns, head, tail, order) && Tombstones(ns, order, tail, rank, clock)
    requires Stored(ns, order, E, na) && 0 <= k < |order|
    ensures LinkedAround(ns, head, tail, order, k)
    ensures ns[order[k]].element in E && Digits(ns[order[k]].element) in na && na[Digits(ns[order[k]].element)] == order[k]
    ensures order' == order[..k] + order[k + 1..]
    ensures var l, x := order[k], ns[order[k]].element;
            && SameSkeleton(ns, Unlinked(ns, l)) && WellFormed(Unlinked(ns, l))
            && Linked(Unlinked(ns, l), head, tail, order') && Tombstones(Unlinked(ns, l), order', tail, rank[l := clock], clock + 1)
            && Stored(Unlinked(ns, l), order', E - {x}, na)
  {
    var l := order[k];
    LinkedDelete(ns, head, tail, order, k);
    TombstonesDelete(ns, head, tail, order, rank, clock, k);
    Neighbours(ns, head, tail, order, k);
    order' := order[..k] + order[k + 1..];
    UnlinkedSkeleton(ns, l);
    assert ContentsOf(ns, order)[k] == ns[l].element;
    StoredDelete(ns, Unlinked(ns, l), order, E, na, k);
  }

  /** The tree part of `UnlinkStep`: the leaf `l` of `x` stays where it is, on the path being torn down. */
  lemma UnlinkTree(ns: seq<Node>, ns': seq<Node>, v: View, x: string, l: int)
    requires Tree(ns, v, []) && SameSkeleton(ns, ns') && WellFormed(ns') && x in v.elements
    requires Digits(x) in v.nodeAt && v.nodeAt[Digits(x)] == l
    ensures InAlphabet(x, v.capacity - 1) && Digits(x)[..|Digits(x)|] == Digits(x)
    ensures 0 <= l < |ns'| && !ns'[l].isRoot
    ensures Tree(ns', View(v.capacity, v.elements - {x}, v.nodeAt), Digits(x))
    ensures Sub(v.elements - {x}, Digits(x)) == {}
  {
    TreeFrame(ns, ns', v, []);
    TreeRelease(ns', v, x);
    assert Digits(x)[..|Digits(x)|] == Digits(x);
    assert NodeOk(ns', v, [], Digits(x));
  }

  /** A node at the end of the path being torn down, with nothing stored below it, has no child. */
  lemma ChildMeansStored(ns: seq<Node>, v: View, ext: seq<int>)
    requires Tree(ns, v, ext) && ext in v.nodeAt && Sub(v.elements, ext) == {}
    ensures ns[v.nodeAt[ext]].numChildren == 0
  {
    var n := ns[v.nodeAt[ext]];
    assert NodeOk(ns, v, ext, ext);
    assert NodeWellFormed(ns, n);
    if n.kind.Internal? {
      forall d | 0 <= d < |n.children| ensures n.children[d] == Nil {
        SubMonotone(v.elements, ext, ext + [d]);
        assert ext + [d] !in v.nodeAt;
      }
    }
    OccupiedPositive(n.children);
  }

  /** The list keeps its strings and leaves when links are kept and only unused paths are dropped. */
  lemma StoredShrink(ns: seq<Node>, ns': seq<Node>, order: seq<int>, E: set<string>, na: map<seq<int>, int>,
                     na': map<seq<int>, int>)
    requires Stored(ns, order, E, na) && SameLinks(ns, ns')
    requires forall p :: p in na' ==> p in na && na'[p] == na[p]
    requires forall e :: e in E ==> Digits(e) in na'
    ensures Stored(ns', order, E, na')
  {
    assert ContentsOf(ns', order) == ContentsOf(ns, order);
    forall k | 0 <= k < |order| ensures ns[order[k]].element in E {
      assert ContentsOf(ns, order)[k] == ns[order[k]].element;
    }
  }

  /**
   * One iteration of the pruning loop: the childless non-root `node` is in its parent's slot for
   * the digit of `x` at `level - 1`, and emptying that slot shortens the path being torn down.
   */
  lemma PruneSite(ns: seq<Node>, cap: int, head: int, tail: int, order: seq<int>, rank: map<int, int>, clock: int,
                  E: set<string>, na: map<seq<int>, int>, root: int, x: string, level: int, node: int)
    requires PruningOn(ns, cap, head, tail, order, rank, clock, E, na, root, x, level, node)
    requires !ns[node].isRoot && ns[node].numChildren == 0
    ensures level > 0
    ensures var parent, d := ns[node].parent, Digits(x)[level - 1];
            0 <= parent < |ns| && 0 <= d < |ns[parent].children| && ns[parent].children[d] != Nil
  {
    PruneTree(ns, View(cap, E, na), x, level, node);
  }

  lemma PruneStep(ns: seq<Node>, ns': seq<Node>, cap: int, head: int, tail: int, order: seq<int>, rank: map<int, int>,
                  clock: int, E: set<string>, na: map<seq<int>, int>, na': map<seq<int>, int>, root: int, x: string,
                  level: int, node: int, parent: int, up: int)
    requires PruningOn(ns, cap, head, tail, order, rank, clock, E, na, root, x, level, node)
    requires !ns[node].isRoot && ns[node].numChildren == 0 && 0 < level && up == level - 1
    requires parent == ns[node].parent && 0 <= parent < |ns| && 0 <= Digits(x)[level - 1] < |ns[parent].children|
    requires ns' == Detach(ns, parent, Digits(x)[level - 1]) && na' == na - {Digits(x)[..level]}
    ensures PruningOn(ns', cap, head, tail, order, rank, clock, E, na', root, x, up, parent)
    ensures SameLinks(ns, ns')
  {
    var ext, d := Digits(x)[..level], Digits(x)[level - 1];
    PruneTree(ns, View(cap, E, na), x, level, node);
    PathsKept(View(cap, E, na), ext);
    DetachKeepsLinks(ns, parent, d);
    assert forall p :: p in na' ==> p in na && na'[p] == na[p];
    PruneList(ns, ns', head, tail, order, rank, clock, E, na, na');
    var q := Digits(x)[..level - 1];
    assert q in na && na[q] == parent;
    assert |q| < |ext| && na'[q] == na[q];
  }

  /** Emptying a slot changes no list link and no element. */
  lemma DetachKeepsLinks(ns: seq<Node>, n: int, index: int)
    requires 0 <= n < |ns| && 0 <= index < |ns[n].children|
    ensures SameLinks(ns, Detach(ns, n, index))
  {
  }

  /** Dropping a path with nothing stored below it keeps the path of every stored string. */
  lemma PathsKept(v: View, ext: seq<int>)
    requires Shaped(v, ext) && Sub(v.elements, ext) == {}
    ensures forall e :: e in v.elements ==> Digits(e) in v.nodeAt - {ext}
  {
    forall e | e in v.elements ensures Digits(e) in v.nodeAt - {ext} {
      assert e in Sub(v.elements, Digits(e));
    }
  }

  /** The tree part of `PruneStep`. */
  lemma PruneTree(ns: seq<Node>, v: View, x: string, level: int, node: int)
    requires 0 <= level <= |Digits(x)|
    requires Tree(ns, v, Digits(x)[..level]) && Sub(v.elements, Digits(x)) == {} && InAlphabet(x, v.capacity - 1)
    requires Digits(x)[..level] in v.nodeAt && v.nodeAt[Digits(x)[..level]] == node
    requires 0 <= node < |ns| && (ns[node].isRoot <==> level == 0)
    requires !ns[node].isRoot && ns[node].numChildren == 0
    ensures level > 0
    ensures var ext, q, d := Digits(x)[..level], Digits(x)[..level - 1], Digits(x)[level - 1];
            && var parent := ns[node].parent;
            && q in v.nodeAt && v.nodeAt[q] == parent && 0 <= parent < |ns|
            && 0 <= d < |ns[parent].children| && ns[parent].children[d] != Nil
            && Sub(v.elements, ext) == {}
            && var ns', v' := Detach(ns, parent, d), View(v.capacity, v.elements, v.nodeAt - {ext});
               && Tree(ns', v', q) && (ns'[parent].isRoot <==> level - 1 == 0)
  {
    var ext, q, d := Digits(x)[..level], Digits(x)[..level - 1], Digits(x)[level - 1];
    assert ext[..|ext| - 1] == q && ext[|ext| - 1] == d;
    DigitsProper(x, v.capacity);
    assert Sub(v.elements, ext) == {} by {
      if EndsString(ext) {
        assert ext == Digits(x);
      }
      OccupiedWhenStored(ns, v, ext, ext, x);
    }
    TreePrune(ns, v, ext);
    var parent := v.nodeAt[q];
    assert NodeOk(Detach(ns, parent, d), View(v.capacity, v.elements, v.nodeAt - {ext}), q, q);
  }

  /** The list part of `PruneStep`: detaching a node changes no link, and no stored string's path is dropped. */
  lemma PruneList(ns: seq<Node>, ns': seq<Node>, head: int, tail: int, order: seq<int>, rank: map<int, int>,
                  clock: int, E: set<string>, na: map<seq<int>, int>, na': map<seq<int>, int>)
    requires Linked(ns, head, tail, order) && Tombstones(ns, order, tail, rank, clock) && Stored(ns, order, E, na)
    requires SameLinks(ns, ns') && forall p :: p in na' ==> p in na && na'[p] == na[p]
    requires forall e :: e in E ==> Digits(e) in na'
    ensures Linked(ns', head, tail, order) && Tombstones(ns', order, tail, rank, clock) && Stored(ns', order, E, na')
  {
    LinkedFrame(ns, ns', head, tail, order);
    TombstonesFrame(ns, ns', order, tail, rank, clock);
    StoredShrink(ns, ns', order, E, na, na');
  }

  /** When the loop stops, at the root or at a node with a child, the tree is whole again. */
  lemma PruneEnd(ns: seq<Node>, cap: int, head: int, tail: int, order: seq<int>, rank: map<int, int>, clock: int,
                 E: set<string>, na: map<seq<int>, int>, root: int, x: string, level: int, node: int)
    requires PruningOn(ns, cap, head, tail, order, rank, clock, E, na, root, x, level, node)
    requires ns[node].isRoot || ns[node].numChildren > 0
    ensures PruningOn(ns, cap, head, tail, order, rank, clock, E, na, root, x, 0, root)
    ensures Tree(ns, View(cap, E, na), [])
  {
    var ext := Digits(x)[..level];
    var v := View(cap, E, na);
    if !ns[node].isRoot && Sub(E, ext) == {} {
      ChildMeansStored(ns, v, ext);
    }
    TreeSettle(ns, v, ext);
    assert Digits(x)[..0] == [];
    assert NodeOk(ns, v, [], []);
  }
}
