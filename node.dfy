/**
 * Trie nodes. Nodes live in an arena (a sequence of node records addressed by integer ids,
 * Nil standing for Go's nil), so that the parent, child and next/previous links of the source
 * are plain ids. A leaf node is a node with the extra doubly-linked-list links of `leafNode`.
 */
module Nodes {
  import opened Wrappers

  /** The id of no node. */
  const Nil := -1

  /** The fields a `leafNode` adds to the embedded `node`. */
  datatype Kind = Internal | Leaf(next: int, previous: int, isHead: bool, isTail: bool)

  /** One node: child slots, the count of occupied slots, the parent back-link and the stored element. */
  datatype Node = Node(parent: int, children: seq<int>, numChildren: int, element: string, isRoot: bool, kind: Kind)

  /** The two ways a child operation can fail. */
  datatype NodeError = IndexOutOfBounds(capacity: int, index: int) | ChildExists(index: int)

  /** What a slot read does as written: the slot's content, a bounds error, or a panic one past the last slot. */
  datatype SlotRead = Slot(id: int) | OutOfBounds(error: NodeError) | SlotPanic

  /** The number of occupied (non-Nil) slots. */
  function Occupied(children: seq<int>): (k: nat)
    ensures k <= |children|
  {
    if children == [] then 0 else (if children[0] != Nil then 1 else 0) + Occupied(children[1..])
  }

  /** A slot array has an occupied slot exactly when its count of occupied slots is positive. */
  lemma {:induction false} OccupiedPositive(children: seq<int>)
    ensures Occupied(children) > 0 <==> exists i :: 0 <= i < |children| && children[i] != Nil
  {
    if children != [] {
      OccupiedPositive(children[1..]);
      if Occupied(children[1..]) > 0 {
        var i :| 0 <= i < |children[1..]| && children[1..][i] != Nil;
        assert children[i + 1] != Nil;
      }
      if exists i :: 0 <= i < |children| && children[i] != Nil {
        var i :| 0 <= i < |children| && children[i] != Nil;
        if i > 0 {
          assert children[1..][i - 1] != Nil;
        }
      }
    }
  }

  /** Filling or clearing one slot moves the count of occupied slots by one. */
  lemma {:induction false} OccupiedUpdate(children: seq<int>, i: int, c: int)
    requires 0 <= i < |children|
    ensures children[i] == Nil && c != Nil ==> Occupied(children[i := c]) == Occupied(children) + 1
    ensures children[i] != Nil && c == Nil ==> Occupied(children[i := c]) == Occupied(children) - 1
    ensures (children[i] == Nil) == (c == Nil) ==> Occupied(children[i := c]) == Occupied(children)
  {
    if i == 0 {
      assert children[i := c][1..] == children[1..];
    } else {
      assert children[i := c][1..] == children[1..][i - 1 := c];
      OccupiedUpdate(children[1..], i - 1, c);
    }
  }

  /** A slot array with no occupied slot. */
  lemma {:induction false} OccupiedEmpty(n: nat)
    ensures Occupied(seq(n, _ => Nil)) == 0
  {
    if n > 0 {
      assert seq(n, _ => Nil)[1..] == seq(n - 1, _ => Nil);
      OccupiedEmpty(n - 1);
    }
  }

  /** `r` is Nil or the id of a node of the arena. */
  predicate Ref(nodes: seq<Node>, r: int)
  {
    r == Nil || 0 <= r < |nodes|
  }

  /** Every link of every node is Nil or a node of the arena, and every count of children is exact. */
  predicate WellFormed(nodes: seq<Node>)
  {
    forall i :: 0 <= i < |nodes| ==> NodeWellFormed(nodes, nodes[i])
  }

  predicate NodeWellFormed(nodes: seq<Node>, n: Node)
  {
    && Ref(nodes, n.parent)
    && (forall j :: 0 <= j < |n.children| ==> Ref(nodes, n.children[j]))
    && n.numChildren == Occupied(n.children)
    && (n.kind.Leaf? ==> Ref(nodes, n.kind.next) && Ref(nodes, n.kind.previous))
  }

  /** A fresh node of `capacity` empty slots; a non-positive capacity gives no slots. */
  function EmptyNode(capacity: int): (n: Node)
    ensures |n.children| == (if capacity <= 0 then 0 else capacity)
    ensures n.numChildren == 0 && Occupied(n.children) == 0
    ensures n.parent == Nil && !n.isRoot && n.kind.Internal?
  {
    OccupiedEmpty(if capacity <= 0 then 0 else capacity);
    Node(Nil, seq(if capacity <= 0 then 0 else capacity, _ => Nil), 0, "", false, Internal)
  }

  /**
   * The bounds test behind `ChildWithIndexOf` and `RemoveChildWithIndexOf`, as written: it admits `index == len`.
   * trie/node.go has its own copy of list/array_list.go's `checkBounds`, so `Lists.CheckBounds` has the same body.
   */
  function CheckBoundsAsWritten(index: int, len: int): (err: Option<NodeError>)
    ensures err.None? <==> 0 <= index <= len
  {
    if index < 0 || index > len then Some(IndexOutOfBounds(len, index)) else None
  }

  /** The evidently intended bounds test: the index of an existing slot. */
  function CheckBounds(index: int, len: int): (err: Option<NodeError>)
    ensures err.None? <==> 0 <= index < len
  {
    if index < 0 || index >= len then Some(IndexOutOfBounds(len, index)) else None
  }

  /** The test as written lets through `index == len`, one past the last slot. */
  lemma CheckBoundsAsWrittenAdmitsEnd(len: nat)
    ensures CheckBoundsAsWritten(len, len).None?
    ensures CheckBounds(len, len).Some?
  {
  }

  /** The corrected test admits exactly the indices of the slot array. */
  lemma CheckBoundsExact(children: seq<int>, index: int)
    ensures CheckBounds(index, |children|).None? <==> 0 <= index < |children|
    ensures CheckBounds(index, |children|).None? ==> CheckBoundsAsWritten(index, |children|).None?
  {
  }

  /** The arena after `Remove(l)`. */
  ghost function Unlinked(ns: seq<Node>, l: int): seq<Node>
    requires 0 <= l < |ns| && ns[l].kind.Leaf?
    requires 0 <= ns[l].kind.previous < |ns| && ns[ns[l].kind.previous].kind.Leaf?
    requires 0 <= ns[l].kind.next < |ns| && ns[ns[l].kind.next].kind.Leaf?
  {
    var pred, succ := ns[l].kind.previous, ns[l].kind.next;
    var n1 := ns[pred := ns[pred].(kind := ns[pred].kind.(next := succ))];
    var n2 := n1[succ := n1[succ].(kind := n1[succ].kind.(previous := pred))];
    n2[l := n2[l].(kind := n2[l].kind.(previous := Nil))]
  }

  /** The node store: every node operation of the source is a method on one node id. */
  class Arena {
    var nodes: seq<Node>

    constructor ()
      ensures nodes == []
    {
      nodes := [];
    }

    /** Allocates a node with `capacity` empty slots, no parent and no element. */
    method NewNode(capacity: int) returns (id: int)
      modifies this
      ensures id == |old(nodes)| && nodes == old(nodes) + [EmptyNode(capacity)]
    {
      id := |nodes|;
      nodes := nodes + [EmptyNode(capacity)];
    }

    /** Allocates the root node: `capacity` empty slots and the root flag. */
    method NewRootNode(capacity: int) returns (id: int)
      requires capacity >= 0
      modifies this
      ensures id == |old(nodes)| && nodes == old(nodes) + [EmptyNode(capacity).(isRoot := true)]
    {
      id := |nodes|;
      nodes := nodes + [EmptyNode(capacity).(isRoot := true)];
    }

    /** Allocates a leaf node; `isHead`/`isTail` mark the two sentinels of the leaf list. */
    method NewLeafNode(isHead: bool, isTail: bool) returns (id: int)
      modifies this
      ensures id == |old(nodes)|
      ensures nodes == old(nodes) + [EmptyNode(0).(kind := Leaf(Nil, Nil, isHead, isTail))]
    {
      id := |nodes|;
      nodes := nodes + [EmptyNode(0).(kind := Leaf(Nil, Nil, isHead, isTail))];
    }

    method SetValue(n: int, element: string)
      requires 0 <= n < |nodes|
      modifies this
      ensures nodes == old(nodes)[n := old(nodes)[n].(element := element)]
    {
      nodes := nodes[n := nodes[n].(element := element)];
    }

    method SetNext(l: int, next: int)
      requires 0 <= l < |nodes| && nodes[l].kind.Leaf?
      modifies this
      ensures nodes == old(nodes)[l := old(nodes)[l].(kind := old(nodes)[l].kind.(next := next))]
    {
      nodes := nodes[l := nodes[l].(kind := nodes[l].kind.(next := next))];
    }

    method SetPrevious(l: int, previous: int)
      requires 0 <= l < |nodes| && nodes[l].kind.Leaf?
      modifies this
      ensures nodes == old(nodes)[l := old(nodes)[l].(kind := old(nodes)[l].kind.(previous := previous))]
    {
      nodes := nodes[l := nodes[l].(kind := nodes[l].kind.(previous := previous))];
    }

    /**
     * Puts `child` in slot `index` of `n` and makes `n` its parent. An index outside the slots or an
     * occupied slot is an error and changes nothing.
     */
    method AddChildWithIndexOf(n: int, index: int, child: int) returns (err: Option<NodeError>)
      requires 0 <= n < |nodes| && 0 <= child < |nodes|
      modifies this
      ensures !(0 <= index < |old(nodes)[n].children|) ==>
                err == Some(IndexOutOfBounds(|old(nodes)[n].children|, index)) && nodes == old(nodes)
      ensures 0 <= index < |old(nodes)[n].children| && old(nodes)[n].children[index] != Nil ==>
                err == Some(ChildExists(index)) && nodes == old(nodes)
      ensures 0 <= index < |old(nodes)[n].children| && old(nodes)[n].children[index] == Nil ==>
                && err == None
                && var filled := old(nodes)[n := old(nodes)[n].(children := old(nodes)[n].children[index := child],
                                                                 numChildren := old(nodes)[n].numChildren + 1)];
                   nodes == filled[child := filled[child].(parent := n)]
    {
      if index < 0 || index >= |nodes[n].children| {
        return Some(IndexOutOfBounds(|nodes[n].children|, index));
      }
      if nodes[n].children[index] != Nil {
        return Some(ChildExists(index));
      }
      nodes := nodes[n := nodes[n].(children := nodes[n].children[index := child],
                                    numChildren := nodes[n].numChildren + 1)];
      nodes := nodes[child := nodes[child].(parent := n)];
      err := None;
    }

    /** The child in slot `index` of `n` (Nil for an empty slot), or an error for an index outside the slots. */
    function ChildWithIndexOf(n: int, index: int): (r: Result<int, NodeError>)
      requires 0 <= n < |nodes|
      reads this
      ensures r.Success? <==> 0 <= index < |nodes[n].children|
      ensures r.Success? ==> r.value == nodes[n].children[index]
      ensures r.Failure? ==> r.error == IndexOutOfBounds(|nodes[n].children|, index)
    {
      match CheckBounds(index, |nodes[n].children|)
      case Some(e) => Failure(e)
      case None => Success(nodes[n].children[index])
    }

    /**
     * `ChildWithIndexOf` as written: its bounds test lets `index == len(children)` through, and
     * the slice access there panics.
     */
    function ChildWithIndexOfAsWritten(n: int, index: int): (r: SlotRead)
      requires 0 <= n < |nodes|
      reads this
      ensures r.SlotPanic? <==> index == |nodes[n].children|
      ensures r.Slot? <==> 0 <= index < |nodes[n].children|
      ensures r.Slot? ==> r.id == nodes[n].children[index]
    {
      match CheckBoundsAsWritten(index, |nodes[n].children|)
      case Some(e) => OutOfBounds(e)
      case None => if index < |nodes[n].children| then Slot(nodes[n].children[index]) else SlotPanic
    }

    /** Except one past the last slot, the read as written agrees with the corrected one. */
    lemma ChildWithIndexOfAsWrittenAgrees(n: int, index: int)
      requires 0 <= n < |nodes| && index != |nodes[n].children|
      ensures ChildWithIndexOf(n, index).Success? ==> ChildWithIndexOfAsWritten(n, index) == Slot(ChildWithIndexOf(n, index).value)
      ensures ChildWithIndexOf(n, index).Failure? ==> ChildWithIndexOfAsWritten(n, index) == OutOfBounds(ChildWithIndexOf(n, index).error)
    {
    }

    /** One past the last slot the corrected read reports an error where the one as written panics. */
    lemma ChildWithIndexOfAsWrittenPanicsAtEnd(n: int)
      requires 0 <= n < |nodes|
      ensures ChildWithIndexOfAsWritten(n, |nodes[n].children|) == SlotPanic
      ensures ChildWithIndexOf(n, |nodes[n].children|) == Failure(IndexOutOfBounds(|nodes[n].children|, |nodes[n].children|))
    {
    }

    /**
     * `RemoveChildWithIndexOf` as written: None for the panic at `index == len(children)`, where
     * the bounds test passes and the slot read fails; otherwise as the corrected method.
     */
    method RemoveChildWithIndexOfAsWritten(n: int, index: int) returns (r: Option<bool>)
      requires 0 <= n < |nodes|
      modifies this
      ensures r.None? <==> index == |old(nodes)[n].children|
      ensures r == Some(true) <==> 0 <= index < |old(nodes)[n].children| && old(nodes)[n].children[index] != Nil
      ensures r == Some(true) ==>
                nodes == old(nodes)[n := old(nodes)[n].(children := old(nodes)[n].children[index := Nil],
                                                         numChildren := old(nodes)[n].numChildren - 1)]
      ensures r != Some(true) ==> nodes == old(nodes)
    {
      if CheckBoundsAsWritten(index, |nodes[n].children|).Some? {
        return Some(false);
      }
      if index == |nodes[n].children| {
        return None;
      }
      if nodes[n].children[index] != Nil {
        nodes := nodes[n := nodes[n].(children := nodes[n].children[index := Nil],
                                      numChildren := nodes[n].numChildren - 1)];
        return Some(true);
      }
      return Some(false);
    }

    /** Empties slot `index` of `n`; true exactly when the slot was occupied. */
    method RemoveChildWithIndexOf(n: int, index: int) returns (removed: bool)
      requires 0 <= n < |nodes|
      modifies this
      ensures removed <==> 0 <= index < |old(nodes)[n].children| && old(nodes)[n].children[index] != Nil
      ensures removed ==>
                nodes == old(nodes)[n := old(nodes)[n].(children := old(nodes)[n].children[index := Nil],
                                                         numChildren := old(nodes)[n].numChildren - 1)]
      ensures !removed ==> nodes == old(nodes)
    {
      if CheckBounds(index, |nodes[n].children|).Some? {
        return false;
      }
      if nodes[n].children[index] != Nil {
        nodes := nodes[n := nodes[n].(children := nodes[n].children[index := Nil],
                                      numChildren := nodes[n].numChildren - 1)];
        return true;
      }
      return false;
    }

    predicate HasChildren(n: int)
      requires 0 <= n < |nodes|
      reads this
    {
      nodes[n].numChildren > 0
    }

    predicate IsDeleted(l: int)
      requires 0 <= l < |nodes| && nodes[l].kind.Leaf?
      reads this
    {
      nodes[l].kind.previous == Nil
    }

    /**
     * Splices leaf `l` into the leaf list right after leaf `other`: `l` takes over `other`'s
     * successor, and `other` and that successor now point at `l`.
     */
    method AddAfter(l: int, other: int)
      requires 0 <= l < |nodes| && nodes[l].kind.Leaf?
      requires 0 <= other < |nodes| && nodes[other].kind.Leaf?
      requires 0 <= nodes[other].kind.next < |nodes| && nodes[nodes[other].kind.next].kind.Leaf?
      modifies this
      ensures var succ := old(nodes)[other].kind.next;
              var n1 := old(nodes)[l := old(nodes)[l].(kind := old(nodes)[l].kind.(next := succ))];
              var n2 := n1[other := n1[other].(kind := n1[other].kind.(next := l))];
              var n3 := n2[l := n2[l].(kind := n2[l].kind.(previous := other))];
              var last := n3[l].kind.next;
              nodes == n3[last := n3[last].(kind := n3[last].kind.(previous := l))]
      ensures var succ := old(nodes)[other].kind.next;
              l != other && l != succ ==>
                && nodes[other].kind.next == l && nodes[l].kind.previous == other
                && nodes[l].kind.next == succ && nodes[succ].kind.previous == l
    {
      var succ := nodes[other].kind.next;
      SetNext(l, succ);
      SetNext(other, l);
      SetPrevious(l, other);
      SetPrevious(nodes[l].kind.next, l);
    }

    /**
     * Unlinks leaf `l`: its neighbours are linked to each other and `l` is tombstoned by clearing
     * its `previous`; its `next` is kept.
     */
    method Remove(l: int)
      requires 0 <= l < |nodes| && nodes[l].kind.Leaf?
      requires 0 <= nodes[l].kind.previous < |nodes| && nodes[nodes[l].kind.previous].kind.Leaf?
      requires 0 <= nodes[l].kind.next < |nodes| && nodes[nodes[l].kind.next].kind.Leaf?
      modifies this
      ensures nodes == Unlinked(old(nodes), l)
      ensures var pred, succ := old(nodes)[l].kind.previous, old(nodes)[l].kind.next;
              l != pred && l != succ ==>
                && nodes[pred].kind.next == succ && nodes[succ].kind.previous == pred
                && nodes[l].kind.previous == Nil && nodes[l].kind.next == succ
    {
      var pred, succ := nodes[l].kind.previous, nodes[l].kind.next;
      SetNext(pred, succ);
      ghost var n1 := nodes;
      SetPrevious(succ, pred);
      assert nodes == n1[succ := n1[succ].(kind := n1[succ].kind.(previous := pred))];
      SetPrevious(l, Nil);
    }
  }

  /** A count of children kept exact makes `HasChildren` mean "some slot is occupied". */
  lemma HasChildrenIffOccupied(nodes: seq<Node>, n: int)
    requires WellFormed(nodes) && 0 <= n < |nodes|
    ensures nodes[n].numChildren > 0 <==> exists i :: 0 <= i < |nodes[n].children| && nodes[n].children[i] != Nil
  {
    OccupiedPositive(nodes[n].children);
  }

  /** Adding a child to an empty slot keeps the arena well formed. */
  lemma AddChildKeepsWellFormed(nodes: seq<Node>, n: int, index: int, child: int)
    requires WellFormed(nodes) && 0 <= n < |nodes| && 0 <= child < |nodes|
    requires 0 <= index < |nodes[n].children| && nodes[n].children[index] == Nil
    ensures var filled := nodes[n := nodes[n].(children := nodes[n].children[index := child],
                                                numChildren := nodes[n].numChildren + 1)];
            WellFormed(filled[child := filled[child].(parent := n)])
  {
    OccupiedUpdate(nodes[n].children, index, child);
  }

  /** Removing the child in an occupied slot keeps the arena well formed. */
  lemma RemoveChildKeepsWellFormed(nodes: seq<Node>, n: int, index: int)
    requires WellFormed(nodes) && 0 <= n < |nodes|
    requires 0 <= index < |nodes[n].children| && nodes[n].children[index] != Nil
    ensures WellFormed(nodes[n := nodes[n].(children := nodes[n].children[index := Nil],
                                             numChildren := nodes[n].numChildren - 1)])
  {
    OccupiedUpdate(nodes[n].children, index, Nil);
  }
}
