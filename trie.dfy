/**
 * The trie over strings: a tree of nodes with one slot per digit, whose leaves hold the stored
 * strings and are also threaded, in sorted order, on a doubly-linked list between a head and a
 * tail sentinel. Removing a string unlinks its leaf (a tombstone that keeps its `next`) and
 * detaches it and every ancestor left without children, up to the root.
 */
module Tries {
  import opened Wrappers
  import opened Digitizer
  import opened Nodes
  import opened TrieShape
  import opened Search
  import opened Lists
  import opened LeafList
  import opened ShapeEdits
  import opened TrieFacts
  import opened RemovalFacts
  import opened IteratorFacts
  import opened QueryFacts

  datatype TrieError = PrefixFreeViolation(element: string) | IndexOutOfBounds(index: int)

  class Trie {
    var root: int
    const head: int
    const tail: int
    const digitizer: StringDigitizer
    const capacity: int
    var size: int
    /** The nodes of this trie. */
    const heap: Arena
    ghost var elements: set<string>
    ghost var order: seq<int>
    ghost var nodeAt: map<seq<int>, int>
    ghost var rank: map<int, int>
    ghost var clock: int

    ghost function Shape(): View
      reads this
    {
      View(capacity, elements, nodeAt)
    }

    /** The list, the tombstones and the counters, over arena `ns`. */
    ghost predicate ListOn(ns: seq<Node>)
      reads this
    {
      && WellFormed(ns)
      && capacity == digitizer.Base() && capacity >= 1
      && Linked(ns, head, tail, order)
      && Tombstones(ns, order, tail, rank, clock) && clock >= 0
      && size == |order|
    }

    /** The tree over arena `ns`: absent before the first insertion, then rooted at `root` for good. */
    ghost predicate TreeOn(ns: seq<Node>)
      reads this
    {
      && (root == Nil ==> elements == {} && nodeAt == map[])
      && (root != Nil ==> Tree(ns, Shape(), []) && [] in nodeAt && nodeAt[[]] == root)
    }

    ghost predicate ValidOn(ns: seq<Node>)
      reads this
    {
      ListOn(ns) && Stored(ns, order, elements, nodeAt) && TreeOn(ns)
    }

    ghost predicate Valid()
      reads this, heap
    {
      ValidOn(heap.nodes)
    }

    /** The stored strings in iteration order. */
    ghost function Contents(): seq<string>
      reads this, heap
      requires Valid()
    {
      ContentsOf(heap.nodes, order)
    }

    /** A trie over `digitizer`: the two sentinels linked to each other and no root yet. */
    constructor WithDigitizer(digitizer: StringDigitizer)
      requires digitizer.Base() >= 1
      ensures Valid() && elements == {} && Contents() == [] && fresh(heap)
      ensures this.digitizer == digitizer && capacity == digitizer.Base()
    {
      var a := new Arena();
      var h := a.NewLeafNode(true, false);
      var t := a.NewLeafNode(false, true);
      a.SetNext(h, t);
      a.SetNext(t, h);
      heap := a;
      head := h;
      tail := t;
      this.digitizer := digitizer;
      capacity := digitizer.Base();
      root := Nil;
      size := 0;
      elements := {};
      order := [];
      nodeAt := map[];
      rank := map[];
      clock := 0;
    }

    /** A trie over the letters 'a' .. of the first `alphabetSize` letters. */
    constructor (alphabetSize: int)
      requires alphabetSize >= 0
      ensures Valid() && elements == {} && Contents() == [] && fresh(heap)
      ensures digitizer == NewStringDigitizer(alphabetSize) && capacity == alphabetSize + 1
    {
      var d := NewStringDigitizer(alphabetSize);
      var a := new Arena();
      var h := a.NewLeafNode(true, false);
      var t := a.NewLeafNode(false, true);
      a.SetNext(h, t);
      a.SetNext(t, h);
      heap := a;
      head := h;
      tail := t;
      digitizer := d;
      capacity := d.Base();
      root := Nil;
      size := 0;
      elements := {};
      order := [];
      nodeAt := map[];
      rank := map[];
      clock := 0;
    }

    // -------------------------------------------------------------------------------------
    // Size
    // -------------------------------------------------------------------------------------

    function Size(): (n: int)
      reads this, heap
      requires Valid()
      ensures n == |elements| == |Contents()|
    {
      SortedCard(Contents(), elements);
      size
    }

    predicate IsEmpty()
      reads this, heap
      requires Valid()
      ensures IsEmpty() <==> elements == {}
    {
      Size() == 0
    }

    function CheckBounds(index: int): (err: Option<TrieError>)
      reads this, heap
      requires Valid()
      ensures err.None? <==> 0 <= index < |elements|
      ensures err.Some? ==> err.value == TrieError.IndexOutOfBounds(index)
    {
      if index < 0 || index >= Size() then Some(TrieError.IndexOutOfBounds(index)) else None
    }

    // -------------------------------------------------------------------------------------
    // Search
    // -------------------------------------------------------------------------------------

    method PrepareSearch(sctx: SearchContext)
      modifies sctx
      ensures sctx.pointer == root && sctx.digitizer == digitizer && sctx.branchPosition == 0 && sctx.path == []
      ensures sctx.numMatches == old(sctx.numMatches)
    {
      sctx.pointer := root;
      sctx.digitizer := digitizer;
      sctx.branchPosition := 0;
      sctx.path := [];
    }

    /**
     * Follows the digits of `x` from the root. A stored `x` is found at its leaf; otherwise the
     * search stops at the deepest node on the path of `x`, whose slot for the next digit is empty.
     */
    method Find(x: string, sctx: SearchContext) returns (r: SearchResult)
      requires Valid() && InAlphabet(x, capacity - 1)
      modifies sctx
      ensures sctx.digitizer == digitizer
      ensures r == Matched || r == Unmatched
      ensures r == Matched <==> Matching(elements, x) != {}
      ensures elements == {} ==> sctx.pointer == root && sctx.path == [] && sctx.branchPosition == 0
      ensures elements != {} ==> root != Nil && sctx.Retracing(heap, Shape(), x)
      ensures r == Matched ==> sctx.At(Shape()) && sctx.path == Digits(x) && sctx.AtLeaf(heap)
      ensures r == Matched ==> Matching(elements, x) == {heap.nodes[sctx.pointer].element}
      ensures elements != {} && r == Unmatched ==>
                && sctx.At(Shape()) && heap.nodes[sctx.pointer].kind.Internal?
                && IsPrefix(sctx.path, Digits(x)) && |sctx.path| < |Digits(x)|
                && Digits(x)[..|sctx.path| + 1] !in nodeAt
    {
      PrepareSearch(sctx);
      if IsEmpty() {
        return Unmatched;
      }
      r := FollowDigits(x, sctx, Shape());
    }

    /** The loop of `find`: descends by the digits of `x` until a leaf or an empty slot. */
    method FollowDigits(x: string, sctx: SearchContext, ghost v: View) returns (r: SearchResult)
      requires Tree(heap.nodes, v, []) && v.capacity == capacity == digitizer.Base() && InAlphabet(x, capacity - 1)
      requires sctx.At(v) && sctx.path == [] && sctx.digitizer == digitizer
      modifies sctx
      ensures sctx.digitizer == digitizer
      ensures r == Matched || r == Unmatched
      ensures r == Matched <==> Matching(v.elements, x) != {}
      ensures sctx.Retracing(heap, v, x)
      ensures r == Matched ==> sctx.At(v) && sctx.path == Digits(x) && sctx.AtLeaf(heap)
      ensures r == Matched ==> Matching(v.elements, x) == {heap.nodes[sctx.pointer].element}
      ensures r == Unmatched ==>
                && sctx.At(v) && heap.nodes[sctx.pointer].kind.Internal?
                && IsPrefix(sctx.path, Digits(x)) && |sctx.path| < |Digits(x)|
                && Digits(x)[..|sctx.path| + 1] !in v.nodeAt
    {
      DigitsProper(x, capacity);
      var numDigitsInElement := digitizer.NumDigitsOf(x);
      while sctx.pointer != Nil && !sctx.AtLeaf(heap)
        invariant sctx.At(v) && sctx.digitizer == digitizer && IsPrefix(sctx.path, Digits(x))
        decreases |Digits(x)| - |sctx.path|
      {
        InnerNotKey(heap.nodes, v, sctx.path, x);
        if sctx.branchPosition == numDigitsInElement {
          assert false;
          return Prefix;
        }
        var d := FollowStep(x, sctx, v);
        if d == ChildNotFound {
          return Unmatched;
        }
      }
      assert sctx.AtLeaf(heap);
      LeafReached(heap.nodes, v, sctx.path, x);
      if sctx.pointer != Nil && sctx.branchPosition != numDigitsInElement {
        assert false;
        return Extension;
      }
      RetracingFrom(sctx, heap, v, x);
      return Matched;
    }

    /** One descend of `find`, from an internal node on the path of `x`. */
    method FollowStep(x: string, sctx: SearchContext, ghost v: View) returns (d: int)
      requires Tree(heap.nodes, v, []) && v.capacity == capacity == digitizer.Base() && InAlphabet(x, capacity - 1)
      requires sctx.At(v) && sctx.digitizer == digitizer && heap.nodes[sctx.pointer].kind.Internal?
      requires IsPrefix(sctx.path, Digits(x)) && |sctx.path| < |Digits(x)|
      modifies sctx
      ensures sctx.digitizer == digitizer && sctx.At(v) && IsPrefix(sctx.path, Digits(x))
      ensures d != ChildNotFound ==> |sctx.path| == old(|sctx.path|) + 1
      ensures d == ChildNotFound ==>
                && Matching(v.elements, x) == {} && sctx.Retracing(heap, v, x) && heap.nodes[sctx.pointer].kind.Internal?
                && |sctx.path| < |Digits(x)| && Digits(x)[..|sctx.path| + 1] !in v.nodeAt
    {
      ghost var q := sctx.path;
      d := sctx.DescendTo(heap, x, v, []);
      if d == ChildNotFound {
        assert sctx.path + [Digits(x)[|sctx.path|]] !in v.nodeAt;
        SearchStuck(sctx, heap, v, x);
      } else {
        assert sctx.path == Digits(x)[..|sctx.path|];
      }
    }

    /**
     * After a search for `x`, moves to the leaf of the greatest stored string before `x`; false,
     * at the root, when there is none.
     */
    method MoveToPredecessor(x: string, sctx: SearchContext, r: SearchResult, ghost v: View) returns (found: bool)
      requires Tree(heap.nodes, v, []) && v.capacity == capacity == digitizer.Base() && InAlphabet(x, capacity - 1)
      requires sctx.Retracing(heap, v, x) && sctx.digitizer == digitizer
      requires r == Matched || r == Unmatched
      modifies sctx
      ensures sctx.digitizer == digitizer && sctx.At(v) && 0 <= sctx.pointer < |heap.nodes|
      ensures found <==> Below(v.elements, x) != {}
      ensures found ==> sctx.AtLeaf(heap) && Greatest(Below(v.elements, x), heap.nodes[sctx.pointer].element)
    {
      if sctx.AtLeaf(heap) && (r == Greater || r == Extension) {
        assert false;
        return true;
      }
      if r != Greater {
        sctx.RetraceToLastLeftFork(heap, x, v);
      }
      if sctx.AtRoot(heap) {
        return false;
      } else if !sctx.AtLeaf(heap) {
        ghost var p := sctx.path;
        sctx.MoveToMaxDescendant(heap, v);
        PredecessorFound(v.elements, x, p, heap.nodes[sctx.pointer].element);
      } else {
        assert NodeOk(heap.nodes, v, [], sctx.path);
        LeafSub(heap.nodes, v, [], sctx.path);
        PredecessorFound(v.elements, x, sctx.path, heap.nodes[sctx.pointer].element);
      }
      return true;
    }

    // -------------------------------------------------------------------------------------
    // Insertion
    // -------------------------------------------------------------------------------------

    /**
     * Adds `x` as a new leaf, linked into the leaf list right after the leaf of the greatest string
     * before it. A string already stored is a violation of the prefix-free requirement and changes
     * nothing.
     */
    method Insert(x: string) returns (l: int, err: Option<TrieError>)
      requires Valid() && InAlphabet(x, capacity - 1)
      modifies this, heap
      ensures Valid() && rank == old(rank) && clock == old(clock)
      ensures Matching(old(elements), x) != {} ==>
                && err == Some(PrefixFreeViolation(x)) && l == Nil
                && elements == old(elements) && order == old(order) && heap.nodes == old(heap.nodes)
      ensures Matching(old(elements), x) == {} ==>
                && err == None && elements == old(elements) + {x} && 0 <= l < |heap.nodes| && l in order
                && heap.nodes[l].element == x && (old(root) != Nil ==> root == old(root))
    {
      var sctx := new SearchContext();
      var r := Find(x, sctx);
      if r == Matched || (!digitizer.IsPrefixFree() && (r == Prefix || r == Extension)) {
        assert Matching(elements, x) != {};
        return Nil, Some(PrefixFreeViolation(x));
      }
      UnmatchedLands(sctx, x);
      l := InsertNew(x, sctx);
      err := None;
    }

    /** A search that does not match `x` stops where a leaf for `x` can go. */
    lemma UnmatchedLands(sctx: SearchContext, x: string)
      requires Valid() && InAlphabet(x, capacity - 1) && sctx.digitizer == digitizer && Matching(elements, x) == {}
      requires elements == {} ==> sctx.pointer == root && sctx.path == [] && sctx.branchPosition == 0
      requires elements != {} ==> root != Nil && sctx.Retracing(heap, Shape(), x)
      requires elements != {} ==>
                 && sctx.At(Shape()) && heap.nodes[sctx.pointer].kind.Internal?
                 && IsPrefix(sctx.path, Digits(x)) && |sctx.path| < |Digits(x)|
                 && Digits(x)[..|sctx.path| + 1] !in nodeAt
      ensures Landing(sctx, x)
    {
      FoundLanding(heap.nodes, Shape(), root, sctx.pointer, sctx.path, sctx.branchPosition, x);
    }

    /** `insert` past the search: `x` is not stored and the search stopped where its leaf goes. */
    method InsertNew(x: string, sctx: SearchContext) returns (l: int)
      requires Valid() && Landing(sctx, x)
      modifies this`root, this`nodeAt, this`elements, this`size, this`order, heap, sctx
      ensures Valid() && elements == old(elements) + {x} && (old(root) != Nil ==> root == old(root))
      ensures 0 <= l < |heap.nodes| && l in order && heap.nodes[l].element == x
    {
      ghost var E0 := elements;
      l := PlaceLeaf(x, sctx);
      var after, j, order' := InsertionPoint(x, sctx, l, E0);
      SpliceIn(l, after, order');
      assert order[j + 1] == l;
    }

    /**
     * Between the two halves of `insert`: the leaf `l` of `x` hangs in the tree (whose strings are
     * now `E0` and `x`) but is not yet in the list, which still holds `E0`.
     */
    ghost predicate Placed(sctx: SearchContext, x: string, l: int, E0: set<string>)
      reads this, heap, sctx
    {
      && ListOn(heap.nodes) && Stored(heap.nodes, order, E0, nodeAt)
      && root != Nil && Tree(heap.nodes, Shape(), []) && [] in nodeAt && nodeAt[[]] == root
      && 0 <= l < |heap.nodes| && heap.nodes[l].kind == Leaf(Nil, Nil, false, false) && heap.nodes[l].element == x
      && Digits(x) in nodeAt && nodeAt[Digits(x)] == l
      && l != head && l != tail && l !in order && l !in rank
      && sctx.At(Shape()) && sctx.path == Digits(x) && sctx.digitizer == digitizer
    }

    /** A new leaf for `x`, hung in the tree by `addNode`. */
    method PlaceLeaf(x: string, sctx: SearchContext) returns (l: int)
      requires Valid() && Landing(sctx, x)
      modifies this`root, this`nodeAt, this`elements, heap, sctx
      ensures elements == old(elements) + {x} && (old(root) != Nil ==> root == old(root))
      ensures Placed(sctx, x, l, old(elements))
    {
      ghost var ns0 := heap.nodes;
      ListBelow(ns0, head, tail, order, rank, clock);
      l := NewLeaf(x);
      LeafAllocated(ns0, Shape(), root, sctx.pointer, sctx.path, sctx.branchPosition, x);
      AddNode(l, sctx, x);
      ListFrame(ns0, ns0 + [LeafOf(x)], heap.nodes, head, tail, order, rank, clock, old(elements), old(nodeAt), nodeAt);
    }

    /** `newLeafNode` followed by `setValue`: a fresh, unlinked leaf holding `x`. */
    method NewLeaf(x: string) returns (l: int)
      modifies heap
      ensures l == |old(heap.nodes)| && heap.nodes == old(heap.nodes) + [LeafOf(x)]
    {
      l := heap.NewLeafNode(false, false);
      heap.SetValue(l, x);
    }

    /**
     * The leaf the new leaf `l` of `x` is linked after, found by `moveToPredecessor`: the leaf of the
     * greatest stored string before `x`, or the head sentinel when there is none. Splicing `l` in
     * there yields a valid arena whose list `order'` has `l` right after that leaf.
     */
    method InsertionPoint(x: string, sctx: SearchContext, l: int, ghost E0: set<string>)
      returns (after: int, ghost j: int, ghost order': seq<int>)
      requires elements == E0 + {x} && Matching(E0, x) == {} && InAlphabet(x, capacity - 1)
      requires Placed(sctx, x, l, E0)
      modifies sctx
      ensures -1 <= j < |order| && after == (if j < 0 then head else order[j])
      ensures 0 <= j + 1 < |order'| && order'[j + 1] == l
      ensures && 0 <= l < |heap.nodes| && heap.nodes[l].kind.Leaf? && heap.nodes[l].element == x
              && 0 <= after < |heap.nodes| && heap.nodes[after].kind.Leaf?
              && 0 <= heap.nodes[after].kind.next < |heap.nodes| && heap.nodes[heap.nodes[after].kind.next].kind.Leaf?
      ensures var ns3 := Spliced(heap.nodes, l, after);
              && WellFormed(ns3) && Linked(ns3, head, tail, order') && Tombstones(ns3, order', tail, rank, clock)
              && Stored(ns3, order', elements, nodeAt) && Tree(ns3, Shape(), [])
      ensures capacity == digitizer.Base() && capacity >= 1 && clock >= 0 && |order'| == size + 1
      ensures root != Nil && [] in nodeAt && nodeAt[[]] == root
    {
      ghost var ns2, v, order0, rank0, clock0, na0 := heap.nodes, Shape(), order, rank, clock, nodeAt;
      RetracingFrom(sctx, heap, v, x);
      var found := MoveToPredecessor(x, sctx, Matched, v);
      if found {
        LeafPath(ns2, v, sctx.path);
      }
      assert Below(E0, x) == Below(elements, x);
      after := if found then sctx.pointer else head;
      j, order' := SpliceSite(ns2, head, tail, capacity, order0, rank0, clock0, E0, na0, x, l, found, after);
      assert heap.nodes == ns2 && order == order0 && rank == rank0 && clock == clock0 && nodeAt == na0 && Shape() == v;
    }

    /**
     * Links the new leaf `l` into the list after leaf `other`: `addAfter`. The spliced arena and the
     * longer list `order'` are valid, so the insertion is complete.
     */
    method SpliceIn(l: int, other: int, ghost order': seq<int>)
      requires 0 <= l < |heap.nodes| && heap.nodes[l].kind.Leaf?
      requires 0 <= other < |heap.nodes| && heap.nodes[other].kind.Leaf?
      requires 0 <= heap.nodes[other].kind.next < |heap.nodes| && heap.nodes[heap.nodes[other].kind.next].kind.Leaf?
      requires var ns3 := Spliced(heap.nodes, l, other);
               && WellFormed(ns3) && Linked(ns3, head, tail, order') && Tombstones(ns3, order', tail, rank, clock)
               && Stored(ns3, order', elements, nodeAt) && Tree(ns3, Shape(), [])
      requires capacity == digitizer.Base() && capacity >= 1 && clock >= 0 && |order'| == size + 1
      requires root != Nil && [] in nodeAt && nodeAt[[]] == root
      modifies this`size, this`order, heap
      ensures Valid() && order == order' && heap.nodes == Spliced(old(heap.nodes), l, other)
      ensures |heap.nodes| == |old(heap.nodes)| && heap.nodes[l].element == old(heap.nodes)[l].element
    {
      ghost var ns := heap.nodes;
      heap.AddAfter(l, other);
      assert heap.nodes == Spliced(ns, l, other);
      size := size + 1;
      order := order';
    }

    /** Where `addNode` starts, over this trie's state and the search context. */
    ghost predicate Landing(sctx: SearchContext, x: string)
      reads this, heap, sctx
    {
      && sctx.digitizer == digitizer && capacity == digitizer.Base()
      && LandingOn(heap.nodes, Shape(), root, sctx.pointer, sctx.path, sctx.branchPosition, x)
    }

    /** The loop state of `addNode`, over this trie's state and the search context. */
    ghost predicate Growing(sctx: SearchContext, x: string, l: int)
      reads this, heap, sctx
    {
      && sctx.digitizer == digitizer && capacity == digitizer.Base()
      && GrowingOn(heap.nodes, Shape(), sctx.path, sctx.pointer, sctx.branchPosition, x, l)
    }

    /**
     * Hangs the leaf `l` of `x` below the node the search stopped at, creating the root first when
     * there is none and one internal node for every digit of `x` not yet on a path.
     */
    method AddNode(l: int, sctx: SearchContext, ghost x: string)
      requires Landing(sctx, x) && 0 <= l < |heap.nodes| && heap.nodes[l] == LeafOf(x)
      requires forall p :: p in nodeAt ==> nodeAt[p] != l
      modifies this`root, this`nodeAt, this`elements, heap, sctx
      ensures root != Nil && (old(root) != Nil ==> root == old(root))
      ensures elements == old(elements) + {x}
      ensures Tree(heap.nodes, Shape(), []) && [] in nodeAt && nodeAt[[]] == root
      ensures Digits(x) in nodeAt && nodeAt[Digits(x)] == l
      ensures forall p :: p in old(nodeAt) ==> p in nodeAt && nodeAt[p] == old(nodeAt)[p]
      ensures SameLinks(old(heap.nodes), heap.nodes)
      ensures sctx.At(Shape()) && sctx.path == Digits(x) && sctx.digitizer == digitizer
    {
      ghost var ns := heap.nodes;
      StartPath(l, sctx, x);
      var element := heap.nodes[l].element;
      ghost var ns1, na1, r1 := heap.nodes, nodeAt, root;
      assert r1 != Nil && [] in na1 && na1[[]] == r1;
      BuildPath(element, sctx, l);
      assert root == r1;
      ghost var ns2, na2 := heap.nodes, nodeAt;
      assert [] in na2 && na2[[]] == r1;
      HangLeaf(element, sctx, l);
      assert root == r1 && nodeAt[[]] == r1;
      SameLinksTrans(ns, ns1, ns2);
      SameLinksTrans(ns, ns2, heap.nodes);
      assert Digits(x) in nodeAt && nodeAt[Digits(x)] == l;
      assert forall p :: p in na1 ==> p in nodeAt && nodeAt[p] == na1[p];
    }

    /** The start of `addNode`: the root, created when there is none, or the node the search stopped at. */
    method StartPath(l: int, sctx: SearchContext, ghost x: string)
      requires Landing(sctx, x) && 0 <= l < |heap.nodes| && heap.nodes[l] == LeafOf(x)
      requires forall p :: p in nodeAt ==> nodeAt[p] != l
      modifies this`root, this`nodeAt, heap, sctx
      ensures Growing(sctx, x, l) && elements == old(elements)
      ensures root != Nil && (old(root) != Nil ==> root == old(root)) && [] in nodeAt && nodeAt[[]] == root
      ensures forall p :: p in old(nodeAt) ==> p in nodeAt && nodeAt[p] == old(nodeAt)[p]
      ensures SameLinks(old(heap.nodes), heap.nodes)
    {
      LandingNil(heap.nodes, Shape(), root, sctx.pointer, sctx.path, sctx.branchPosition, x);
      if sctx.pointer == Nil {
        ghost var ns := heap.nodes;
        root := heap.NewRootNode(capacity);
        sctx.pointer := root;
        nodeAt := map[[] := root];
        RootGrows(ns, capacity, x, l);
      } else {
        LandedGrows(heap.nodes, Shape(), root, sctx.pointer, sctx.path, sctx.branchPosition, x, l);
        SameLinksRefl(heap.nodes);
      }
    }

    /** The loop of `addNode`: internal nodes for the digits of `x` up to its end-of-string digit. */
    method BuildPath(x: string, sctx: SearchContext, l: int)
      requires Growing(sctx, x, l)
      modifies this`nodeAt, heap, sctx
      ensures Growing(sctx, x, l) && |sctx.path| == |Digits(x)| - 1
      ensures forall p :: p in old(nodeAt) ==> p in nodeAt && nodeAt[p] == old(nodeAt)[p]
      ensures SameLinks(old(heap.nodes), heap.nodes)
    {
      SameLinksRefl(heap.nodes);
      while sctx.branchPosition < digitizer.NumDigitsOf(x) - 1
        invariant Growing(sctx, x, l)
        invariant forall p :: p in old(nodeAt) ==> p in nodeAt && nodeAt[p] == old(nodeAt)[p]
        invariant SameLinks(old(heap.nodes), heap.nodes)
        decreases |Digits(x)| - |sctx.path|
      {
        ghost var ns := heap.nodes;
        GrowStep(x, sctx, l);
        SameLinksTrans(old(heap.nodes), ns, heap.nodes);
      }
    }

    /** The end of `addNode`: the leaf of `x` in the slot of the end-of-string digit. */
    method HangLeaf(x: string, sctx: SearchContext, l: int)
      requires Growing(sctx, x, l) && |sctx.path| == |Digits(x)| - 1
      modifies this`nodeAt, this`elements, heap, sctx
      ensures elements == old(elements) + {x}
      ensures Tree(heap.nodes, Shape(), [])
      ensures nodeAt == old(nodeAt)[Digits(x) := l] && Digits(x) !in old(nodeAt)
      ensures SameLinks(old(heap.nodes), heap.nodes)
      ensures sctx.At(Shape()) && sctx.path == Digits(x) && sctx.digitizer == digitizer
    {
      ghost var ns, q, ptr, v := heap.nodes, sctx.path, sctx.pointer, Shape();
      AttachLeaf(ns, v, q, ptr, sctx.branchPosition, x, l);
      var index := digitizer.DigitOf(x, sctx.branchPosition);
      assert index == 0;
      var _ := heap.AddChildWithIndexOf(sctx.pointer, index, l);
      assert heap.nodes == Attach(ns, ptr, 0, l);
      sctx.pointer := l;
      sctx.branchPosition := sctx.branchPosition + 1;
      sctx.path := sctx.path + [index];
      nodeAt := nodeAt[sctx.path := l];
      elements := elements + {x};
      assert sctx.path == Digits(x);
    }

    /** One round of the loop of `addNode`: a new internal node for the next digit of `x`. */
    method GrowStep(x: string, sctx: SearchContext, l: int)
      requires Growing(sctx, x, l) && |sctx.path| < |Digits(x)| - 1
      modifies this`nodeAt, heap, sctx
      ensures Growing(sctx, x, l) && |sctx.path| == old(|sctx.path|) + 1
      ensures forall p :: p in old(nodeAt) ==> p in nodeAt && nodeAt[p] == old(nodeAt)[p]
      ensures SameLinks(old(heap.nodes), heap.nodes)
    {
      ghost var ns := heap.nodes;
      ghost var q := sctx.path;
      GrowNode(ns, Shape(), q, sctx.pointer, sctx.branchPosition, x, l);
      var index := digitizer.DigitOf(x, sctx.branchPosition);
      var child := HangChild(sctx.pointer, index);
      sctx.pointer := child;
      sctx.branchPosition := sctx.branchPosition + 1;
      sctx.path := sctx.path + [index];
      nodeAt := nodeAt[sctx.path := child];
    }

    /** `newNode` followed by `addChildWithIndexOf` into an empty slot: a fresh internal node at `index` below `n`. */
    method HangChild(n: int, index: int) returns (child: int)
      requires 0 <= n < |heap.nodes| && 0 <= index < |heap.nodes[n].children| && heap.nodes[n].children[index] == Nil
      modifies heap
      ensures child == |old(heap.nodes)| && heap.nodes == Attach(old(heap.nodes) + [EmptyNode(capacity)], n, index, child)
    {
      ghost var ns := heap.nodes;
      child := heap.NewNode(capacity);
      assert heap.nodes[n] == ns[n];
      var _ := heap.AddChildWithIndexOf(n, index, child);
    }

    /** Inserts `x`; storing it twice violates the prefix-free requirement and changes nothing. */
    method Add(x: string) returns (err: Option<TrieError>)
      requires Valid() && InAlphabet(x, capacity - 1)
      modifies this, heap
      ensures Valid() && rank == old(rank) && clock == old(clock)
      ensures Matching(old(elements), x) != {} ==> err == Some(PrefixFreeViolation(x)) && elements == old(elements)
      ensures Matching(old(elements), x) == {} ==> err == None && elements == old(elements) + {x}
    {
      var _, e := Insert(x);
      err := e;
    }

    /**
     * Adds the strings of `values` (the values of another collection, in its order) one by one,
     * stopping at the first that is already stored: the ones before it are kept.
     */
    method AddAll(values: seq<string>) returns (err: Option<TrieError>)
      requires Valid() && forall k :: 0 <= k < |values| ==> InAlphabet(values[k], capacity - 1)
      modifies this, heap
      ensures Valid() && rank == old(rank) && clock == old(clock)
      ensures var k := AddablePrefix(old(elements), values);
              && elements == old(elements) + Members(values[..k])
              && err == if k == |values| then None else Some(PrefixFreeViolation(values[k]))
    {
      var i := 0;
      MembersEmpty(old(elements), values);
      while i < |values|
        invariant 0 <= i <= |values| && Valid() && rank == old(rank) && clock == old(clock)
        invariant elements == old(elements) + Members(values[..i]) && AllNew(old(elements), values, i)
      {
        ghost var E := elements;
        err := Add(values[i]);
        if err != None {
          FirstRepeatIsAddablePrefix(old(elements), values, i);
          return;
        }
        MembersStep(old(elements), values, i, E, elements);
        i := i + 1;
      }
      FirstRepeatIsAddablePrefix(old(elements), values, i);
      err := None;
    }

    // -------------------------------------------------------------------------------------
    // Removal
    // -------------------------------------------------------------------------------------

    /**
     * Removes `x` when it is stored: its leaf becomes a tombstone and the nodes it leaves without
     * children are detached. Otherwise false, and nothing changes.
     */
    method Remove(x: string) returns (removed: bool)
      requires Valid() && InAlphabet(x, capacity - 1)
      modifies this, heap
      ensures Valid() && (removed <==> Matching(old(elements), x) != {}) && elements == old(elements) - Matching(old(elements), x)
      ensures !removed ==> heap.nodes == old(heap.nodes) && order == old(order) && rank == old(rank) && clock == old(clock)
      ensures removed ==> clock == old(clock) + 1 && size == old(size) - 1
    {
      if IsEmpty() {
        return false;
      }
      var sctx := new SearchContext();
      var r := Find(x, sctx);
      if r != Matched {
        return false;
      }
      ghost var m := heap.nodes[sctx.pointer].element;
      ghost var k := StoredLeaf(heap.nodes, order, elements, nodeAt, m);
      RemoveNode(sctx.pointer, k, m);
      return true;
    }

    /**
     * `remove`: unlinks the live leaf `l`, then detaches it and every ancestor it leaves without
     * children, up to the root or the first node that still has a child.
     */
    method RemoveNode(l: int, ghost k: int, ghost x: string)
      requires Valid() && 0 <= k < |order| && order[k] == l && 0 <= l < |heap.nodes| && heap.nodes[l].element == x
      modifies this`size, this`order, this`elements, this`nodeAt, this`rank, this`clock, heap
      ensures Valid() && x in old(elements) && elements == old(elements) - {x}
      ensures rank == old(rank)[l := old(clock)] && clock == old(clock) + 1 && size == old(size) - 1
      ensures order == old(order)[..k] + old(order)[k + 1..]
      ensures 0 <= l < |heap.nodes| && heap.nodes[l].kind.Leaf? && heap.nodes[l].kind.next == Succ(old(order), tail, k)
    {
      var element := Unlink(l, k);
      Prune(l, element);
    }

    /** The first half of `remove`: takes the leaf `l` off the list and empties it. */
    method Unlink(l: int, ghost k: int) returns (element: string)
      requires Valid() && 0 <= k < |order| && order[k] == l
      modifies this`size, this`order, this`elements, this`rank, this`clock, heap
      ensures Pruning(l, element, |Digits(element)|) && size == old(size) - 1
      ensures 0 <= l < |old(heap.nodes)| && element == old(heap.nodes)[l].element && element in old(elements)
      ensures elements == old(elements) - {element}
      ensures rank == old(rank)[l := old(clock)] && clock == old(clock) + 1
      ensures order == old(order)[..k] + old(order)[k + 1..]
      ensures 0 <= l < |heap.nodes| && heap.nodes[l].kind.Leaf? && heap.nodes[l].kind.next == Succ(old(order), tail, k)
    {
      ghost var ns, O, R, C, E := heap.nodes, order, rank, clock, elements;
      Ready(k);
      element := UnlinkLeaf(l, k);
      LeftList(ns, O, R, C, E, k, l, element);
    }

    /** A valid trie may have the leaf at any position of its list removed. */
    lemma Ready(k: int)
      requires Valid() && 0 <= k < |order|
      ensures Removable(heap.nodes, head, tail, capacity, order, rank, clock, elements, nodeAt, root, k)
      ensures 0 <= order[k] < |heap.nodes|
    {
      Neighbours(heap.nodes, head, tail, order, k);
    }

    /** Once the leaf at position `k` of list `O` over arena `ns` has left it, the pruning loop may start from it. */
    lemma LeftList(ns: seq<Node>, O: seq<int>, R: map<int, int>, C: int, E: set<string>, k: int, l: int, x: string)
      requires capacity == digitizer.Base() && size == |order|
      requires Removable(ns, head, tail, capacity, O, R, C, E, nodeAt, root, k)
      requires l == O[k] && heap.nodes == Unlinked(ns, l) && x == ns[l].element
      requires order == O[..k] + O[k + 1..] && rank == R[l := C] && clock == C + 1 && elements == E - {x}
      ensures Pruning(l, x, |Digits(x)|) && 0 <= l < |heap.nodes| && heap.nodes[l].kind.Leaf? && heap.nodes[l].kind.next == Succ(O, tail, k)
    {
      Neighbours(ns, head, tail, O, k);
      UnlinkedAt(ns, l);
      UnlinkStep(ns, heap.nodes, head, tail, capacity, O, R, C, E, nodeAt, root, k, l, order, rank, clock, elements, x, nodeAt, root);
    }

    /** Takes the leaf at position `k` of the list out of it and records it as the newest tombstone. */
    method UnlinkLeaf(l: int, ghost k: int) returns (element: string)
      requires 0 <= k < |order| && order[k] == l && LinkedAround(heap.nodes, head, tail, order, k)
      modifies this`size, this`order, this`elements, this`rank, this`clock, heap
      ensures heap.nodes == Unlinked(old(heap.nodes), l) && element == old(heap.nodes)[l].element && size == old(size) - 1
      ensures order == old(order)[..k] + old(order)[k + 1..] && rank == old(rank)[l := old(clock)]
      ensures clock == old(clock) + 1 && elements == old(elements) - {element}
    {
      element := heap.nodes[l].element;
      heap.Remove(l);
      order, rank, clock, elements := order[..k] + order[k + 1..], rank[l := clock], clock + 1, elements - {element};
      size := size - 1;
    }

    /** The state of the loop of `remove`, over this trie's fields. */
    ghost predicate Pruning(node: int, x: string, level: int)
      reads this, heap
    {
      && capacity == digitizer.Base() && size == |order|
      && PruningOn(heap.nodes, capacity, head, tail, order, rank, clock, elements, nodeAt, root, x, level, node)
    }

    /** Once the pruning has stopped, the trie is valid again. */
    lemma Pruned(x: string)
      requires Pruning(root, x, 0) && Tree(heap.nodes, Shape(), [])
      ensures Valid()
    {
    }

    /** The loop of `remove`: detaches `node`, then its parent, and so on, while they are childless non-roots. */
    method Prune(node: int, element: string)
      requires Pruning(node, element, |Digits(element)|)
      modifies this`nodeAt, heap
      ensures Valid() && SameLinks(old(heap.nodes), heap.nodes)
    {
      ghost var O, R, C, E, Rt := order, rank, clock, elements, root;
      var level := digitizer.NumDigitsOf(element);
      var n := node;
      while !heap.nodes[n].isRoot && !heap.HasChildren(n)
        invariant PruningOn(heap.nodes, capacity, head, tail, O, R, C, E, nodeAt, Rt, element, level, n)
        invariant SameLinks(old(heap.nodes), heap.nodes)
        decreases level
      {
        ghost var ns := heap.nodes;
        n, level := PruneOne(n, element, level, O, R, C, E, Rt);
        SameLinksTrans(old(heap.nodes), ns, heap.nodes);
      }
      PruneEnd(heap.nodes, capacity, head, tail, O, R, C, E, nodeAt, Rt, element, level, n);
      Pruned(element);
    }

    /** One round of the pruning loop: unhooks the childless node `n` from its parent and returns the parent. */
    method PruneOne(n: int, element: string, level: int, ghost O: seq<int>, ghost R: map<int, int>, ghost C: int,
                    ghost E: set<string>, ghost Rt: int) returns (parent: int, up: int)
      requires PruningOn(heap.nodes, capacity, head, tail, O, R, C, E, nodeAt, Rt, element, level, n)
      requires !heap.nodes[n].isRoot && heap.nodes[n].numChildren == 0
      modifies this`nodeAt, heap
      ensures up == level - 1 >= 0 && SameLinks(old(heap.nodes), heap.nodes)
      ensures PruningOn(heap.nodes, capacity, head, tail, O, R, C, E, nodeAt, Rt, element, up, parent)
    {
      ghost var ns, na := heap.nodes, nodeAt;
      PruneSite(ns, capacity, head, tail, O, R, C, E, na, Rt, element, level, n);
      parent := heap.nodes[n].parent;
      var d := digitizer.DigitOf(element, level - 1);
      assert d == Digits(element)[level - 1];
      var removed := heap.RemoveChildWithIndexOf(parent, d);
      assert removed;
      nodeAt := nodeAt - {Digits(element)[..level]};
      up := level - 1;
      PruneStep(ns, heap.nodes, capacity, head, tail, O, R, C, E, na, nodeAt, Rt, element, level, n, parent, up);
    }

    method Contains(x: string) returns (b: bool)
      requires Valid() && InAlphabet(x, capacity - 1)
      ensures b <==> Matching(elements, x) != {}
    {
      if IsEmpty() {
        return false;
      }
      var sctx := new SearchContext();
      var r := Find(x, sctx);
      return r == Matched;
    }

    // -------------------------------------------------------------------------------------
    // Order queries
    // -------------------------------------------------------------------------------------

    /** The head's successor holds the least stored string, the tail's predecessor the greatest. */
    lemma ListEnds()
      requires Valid() && elements != {}
      ensures order != [] && heap.nodes[head].kind.Leaf? && heap.nodes[tail].kind.Leaf?
      ensures heap.nodes[head].kind.next == order[0] && heap.nodes[tail].kind.previous == order[|order| - 1]
      ensures 0 <= order[0] < |heap.nodes| && 0 <= order[|order| - 1] < |heap.nodes|
      ensures Least(elements, heap.nodes[order[0]].element)
      ensures Greatest(elements, heap.nodes[order[|order| - 1]].element)
    {
      ListEndsOn(heap.nodes, head, tail, order, elements, nodeAt);
    }

    /** The first string in iteration order, the least one stored; nothing (nil) for an empty trie. */
    method Min() returns (r: Option<string>)
      requires Valid()
      ensures r.None? <==> elements == {}
      ensures r.Some? ==> Least(elements, r.value)
    {
      if !IsEmpty() {
        ListEnds();
        return Some(heap.nodes[heap.nodes[head].kind.next].element);
      }
      return None;
    }

    /** The last string in iteration order, the greatest one stored; nothing (nil) for an empty trie. */
    method Max() returns (r: Option<string>)
      requires Valid()
      ensures r.None? <==> elements == {}
      ensures r.Some? ==> Greatest(elements, r.value)
    {
      if !IsEmpty() {
        ListEnds();
        return Some(heap.nodes[heap.nodes[tail].kind.previous].element);
      }
      return None;
    }

    /** The greatest stored string before `x`; nothing (nil) when there is none. */
    method Predecessor(x: string) returns (r: Option<string>)
      requires Valid() && InAlphabet(x, capacity - 1)
      ensures r.None? <==> Below(elements, x) == {}
      ensures r.Some? ==> Greatest(Below(elements, x), r.value)
    {
      if !IsEmpty() {
        var sctx := new SearchContext();
        var searchResult := Find(x, sctx);
        var found := MoveToPredecessor(x, sctx, searchResult, Shape());
        if found {
          return Some(heap.nodes[sctx.pointer].element);
        }
      }
      return None;
    }

    /**
     * The least stored string after `x`; nothing (nil) when there is none. It is in the leaf after
     * the leaf of `x` when `x` is stored, else in the leaf after the greatest string before `x`,
     * else in the first leaf.
     */
    method Successor(x: string) returns (r: Option<string>)
      requires Valid() && InAlphabet(x, capacity - 1)
      ensures r.None? <==> Above(elements, x) == {}
      ensures r.Some? ==> Least(Above(elements, x), r.value)
    {
      if !IsEmpty() {
        var sctx := new SearchContext();
        var searchResult := Find(x, sctx);
        var successor := tail;
        if searchResult == Matched {
          var k := MatchedPosition(x, sctx);
          successor := heap.nodes[sctx.pointer].kind.next;
          SuccessorAt(x, k);
        } else {
          var again := Find(x, sctx);
          var found := MoveToPredecessor(x, sctx, again, Shape());
          if found {
            var k := PredecessorPosition(x, sctx);
            successor := heap.nodes[sctx.pointer].kind.next;
            SuccessorAt(x, k);
          } else {
            FirstPosition(x);
            successor := heap.nodes[head].kind.next;
            SuccessorAt(x, -1);
          }
        }
        if !heap.nodes[successor].kind.isTail {
          return Some(heap.nodes[successor].element);
        }
      }
      return None;
    }

    /**
     * `Successor` as written: when `x` is not stored and nothing before it is, the successor stays
     * the tail, so nothing is returned even when strings after `x` are stored.
     */
    method SuccessorAsWritten(x: string) returns (r: Option<string>)
      requires Valid() && InAlphabet(x, capacity - 1)
      ensures r.None? <==> Above(elements, x) == {} || (Matching(elements, x) == {} && Below(elements, x) == {})
      ensures r.Some? ==> Least(Above(elements, x), r.value)
    {
      if !IsEmpty() {
        var sctx := new SearchContext();
        var searchResult := Find(x, sctx);
        var successor := tail;
        if searchResult == Matched {
          var k := MatchedPosition(x, sctx);
          successor := heap.nodes[sctx.pointer].kind.next;
          SuccessorAt(x, k);
        } else {
          var again := Find(x, sctx);
          var found := MoveToPredecessor(x, sctx, again, Shape());
          if found {
            var k := PredecessorPosition(x, sctx);
            successor := heap.nodes[sctx.pointer].kind.next;
            SuccessorAt(x, k);
          }
        }
        if !heap.nodes[successor].kind.isTail {
          return Some(heap.nodes[successor].element);
        }
      }
      return None;
    }

    /** The position in the list of the stored string `m`. */
    lemma PositionOf(m: string) returns (k: int)
      requires Valid() && m in elements
      ensures 0 <= k < |order| && Contents()[k] == m && order[k] == nodeAt[Digits(m)]
    {
      assert m in Members(Contents());
      k :| 0 <= k < |order| && Contents()[k] == m;
    }

    /** A search that found `x` stands on the leaf at some position `k`, and only later strings come after `x`. */
    lemma MatchedPosition(x: string, sctx: SearchContext) returns (k: int)
      requires Valid() && sctx.At(Shape()) && sctx.path == Digits(x) && Ref(heap.nodes, sctx.pointer) && sctx.AtLeaf(heap)
      requires Matching(elements, x) == {heap.nodes[sctx.pointer].element}
      ensures 0 <= k < |order| && order[k] == sctx.pointer
      ensures heap.nodes[sctx.pointer].kind.Leaf? && heap.nodes[sctx.pointer].kind.next == Succ(order, tail, k)
      ensures forall j :: 0 <= j <= k ==> !Before(x, Contents()[j])
      ensures k + 1 < |order| ==> Before(x, Contents()[k + 1])
    {
      var m := heap.nodes[sctx.pointer].element;
      assert m in Matching(elements, x);
      k := PositionOf(m);
      assert LiveAt(heap.nodes, head, tail, order, k);
      AfterMatch(Contents(), x, k);
    }

    /**
     * A search that stands on the leaf of the greatest string before `x`, with `x` not stored:
     * that leaf is at some position `k`, and only later strings come after `x`.
     */
    lemma PredecessorPosition(x: string, sctx: SearchContext) returns (k: int)
      requires Valid() && InAlphabet(x, capacity - 1) && root != Nil && Matching(elements, x) == {}
      requires sctx.At(Shape()) && Ref(heap.nodes, sctx.pointer) && sctx.AtLeaf(heap)
      requires Greatest(Below(elements, x), heap.nodes[sctx.pointer].element)
      ensures 0 <= k < |order| && order[k] == sctx.pointer
      ensures heap.nodes[sctx.pointer].kind.Leaf? && heap.nodes[sctx.pointer].kind.next == Succ(order, tail, k)
      ensures forall j :: 0 <= j <= k ==> !Before(x, Contents()[j])
      ensures k + 1 < |order| ==> Before(x, Contents()[k + 1])
    {
      var m := heap.nodes[sctx.pointer].element;
      LeafPath(heap.nodes, Shape(), sctx.path);
      k := PositionOf(m);
      assert LiveAt(heap.nodes, head, tail, order, k);
      AfterPredecessor(Contents(), elements, x, k, capacity - 1);
    }

    /** With `x` not stored and nothing stored before it, the head's successor starts the strings after `x`. */
    lemma FirstPosition(x: string)
      requires Valid() && InAlphabet(x, capacity - 1) && root != Nil
      requires Matching(elements, x) == {} && Below(elements, x) == {}
      ensures heap.nodes[head].kind.Leaf? && heap.nodes[head].kind.next == Succ(order, tail, -1)
      ensures 0 < |order| ==> Before(x, Contents()[0])
    {
      AfterNothing(Contents(), elements, x, capacity - 1);
    }

    /**
     * When nothing up to position `k` comes after `x` and the string at `k + 1` does, the node after
     * position `k` in the list is the tail exactly when nothing comes after `x`, and otherwise holds
     * the least string after `x`.
     */
    lemma SuccessorAt(x: string, k: int)
      requires Valid() && -1 <= k < |order|
      requires forall j :: 0 <= j <= k ==> !Before(x, Contents()[j])
      requires k + 1 < |order| ==> Before(x, Contents()[k + 1])
      ensures var n := Succ(order, tail, k);
              && 0 <= n < |heap.nodes| && heap.nodes[n].kind.Leaf?
              && (heap.nodes[n].kind.isTail <==> Above(elements, x) == {})
              && (!heap.nodes[n].kind.isTail ==> Least(Above(elements, x), heap.nodes[n].element))
    {
      NextAfter(Contents(), elements, x, k);
      if k + 1 < |order| {
        assert LiveAt(heap.nodes, head, tail, order, k + 1);
      }
    }

    /**
     * Appends to `out`, in order, the stored strings that start with `prefix` up to case: the
     * subtree at the digits of `prefix` without the end-of-string digit.
     */
    method Completions(prefix: string, out: ArrayList<string>)
      requires Valid() && InAlphabet(prefix, capacity - 1)
      modifies out
      ensures Appended(old(out.elements), out.elements, WithPrefix(elements, prefix))
    {
      ghost var s: seq<string> := [];
      if !IsEmpty() {
        var sctx, searchResult, numDigits := SearchPrefix(prefix);
        if searchResult == Prefix || searchResult == Matched || sctx.branchPosition == numDigits {
          s := sctx.ElementsInSubtree(heap, out, Shape());
        }
      }
      AppendedOf(old(out.elements), s, WithPrefix(elements, prefix));
    }

    /**
     * The search that `Completions` begins with: `find`, then leaving a leaf reached for its
     * parent, so the context stands where the characters of `prefix` lead; it stands at their
     * end exactly when a stored string starts with `prefix`.
     */
    method SearchPrefix(prefix: string) returns (sctx: SearchContext, searchResult: SearchResult, numDigits: int)
      requires Valid() && InAlphabet(prefix, capacity - 1) && elements != {}
      ensures fresh(sctx) && StoppedUnder(sctx, prefix)
      ensures sctx.branchPosition == numDigits <==> |sctx.path| == |prefix|
      ensures searchResult == Matched ==> sctx.branchPosition == numDigits
      ensures searchResult != Prefix
      ensures |sctx.path| == |prefix| ==> Sub(elements, sctx.path) == WithPrefix(elements, prefix)
      ensures |sctx.path| < |prefix| ==> WithPrefix(elements, prefix) == {}
    {
      sctx, searchResult := SearchFor(prefix);
      numDigits := digitizer.NumDigitsOf(prefix);
      if digitizer.IsPrefixFree() {
        numDigits := numDigits - 1;
        LeaveLeaf(prefix, sctx, searchResult);
      }
      StoppedSubtree(sctx, prefix);
    }

    /**
     * `Completions` as written: its `processedEndOfString` reads the parent of the node the search
     * stops at, a nil dereference when that is the root; the search stops at the root exactly when
     * no stored string has the first digit of `prefix`.
     */
    method CompletionsAsWritten(prefix: string, out: ArrayList<string>) returns (panicked: bool)
      requires Valid() && InAlphabet(prefix, capacity - 1)
      modifies out
      ensures panicked <==> elements != {} && Sub(elements, Digits(prefix)[..1]) == {}
      ensures panicked ==> out.elements == old(out.elements)
      ensures !panicked ==> Appended(old(out.elements), out.elements, WithPrefix(elements, prefix))
    {
      ghost var s: seq<string> := [];
      panicked := false;
      if !IsEmpty() {
        var sctx, searchResult, numDigits;
        sctx, searchResult, numDigits, panicked := SearchPrefixAsWritten(prefix);
        if panicked {
          return;
        }
        if searchResult == Prefix || searchResult == Matched || sctx.branchPosition == numDigits {
          s := sctx.ElementsInSubtree(heap, out, Shape());
        }
      }
      AppendedOf(old(out.elements), s, WithPrefix(elements, prefix));
    }

    /** `SearchPrefix` with `processedEndOfString` as written, failing at the root. */
    method SearchPrefixAsWritten(prefix: string)
      returns (sctx: SearchContext, searchResult: SearchResult, numDigits: int, panicked: bool)
      requires Valid() && InAlphabet(prefix, capacity - 1) && elements != {}
      ensures fresh(sctx)
      ensures panicked <==> Sub(elements, Digits(prefix)[..1]) == {}
      ensures !panicked ==> StoppedUnder(sctx, prefix)
      ensures !panicked ==> (sctx.branchPosition == numDigits <==> |sctx.path| == |prefix|)
      ensures !panicked && searchResult == Matched ==> sctx.branchPosition == numDigits
      ensures searchResult != Prefix
      ensures !panicked && |sctx.path| == |prefix| ==> Sub(elements, sctx.path) == WithPrefix(elements, prefix)
      ensures !panicked && |sctx.path| < |prefix| ==> WithPrefix(elements, prefix) == {}
    {
      sctx, searchResult := SearchFor(prefix);
      numDigits := digitizer.NumDigitsOf(prefix);
      panicked := false;
      if digitizer.IsPrefixFree() {
        numDigits := numDigits - 1;
        panicked := LeaveLeafAsWritten(prefix, sctx, searchResult);
        if panicked {
          return;
        }
        StoppedSubtree(sctx, prefix);
      }
    }

    /**
     * Appends to `out`, in order, the stored strings that share with `x` the longest prefix any
     * stored string shares with it: the subtree where the search for `x` stops.
     */
    method LongestCommonPrefix(x: string, out: ArrayList<string>)
      requires Valid() && InAlphabet(x, capacity - 1)
      modifies out
      ensures Appended(old(out.elements), out.elements, WithPrefix(elements, x[..SharedPrefixLength(elements, x)]))
    {
      ghost var s: seq<string> := [];
      if !IsEmpty() {
        var sctx := SearchShared(x);
        s := sctx.ElementsInSubtree(heap, out, Shape());
      }
      AppendedOf(old(out.elements), s, WithPrefix(elements, x[..SharedPrefixLength(elements, x)]));
    }

    /**
     * The search that `LongestCommonPrefix` begins with, leaving a leaf reached for its parent:
     * the context stands at the node of the longest shared prefix.
     */
    method SearchShared(x: string) returns (sctx: SearchContext)
      requires Valid() && InAlphabet(x, capacity - 1) && elements != {}
      ensures fresh(sctx) && StoppedUnder(sctx, x)
      ensures Sub(elements, sctx.path) == WithPrefix(elements, x[..SharedPrefixLength(elements, x)])
    {
      var searchResult;
      sctx, searchResult := SearchFor(x);
      LeaveLeaf(x, sctx, searchResult);
      StoppedShared(sctx, x);
    }

    /**
     * `LongestCommonPrefix` as written: the same nil dereference at the root, which the search
     * stops at exactly when no stored string has the first digit of `x`.
     */
    method LongestCommonPrefixAsWritten(x: string, out: ArrayList<string>) returns (panicked: bool)
      requires Valid() && InAlphabet(x, capacity - 1)
      modifies out
      ensures panicked <==> elements != {} && Sub(elements, Digits(x)[..1]) == {}
      ensures panicked ==> out.elements == old(out.elements)
      ensures !panicked ==>
                Appended(old(out.elements), out.elements, WithPrefix(elements, x[..SharedPrefixLength(elements, x)]))
    {
      ghost var s: seq<string> := [];
      panicked := false;
      if !IsEmpty() {
        var sctx;
        sctx, panicked := SearchSharedAsWritten(x);
        if panicked {
          return;
        }
        s := sctx.ElementsInSubtree(heap, out, Shape());
      }
      AppendedOf(old(out.elements), s, WithPrefix(elements, x[..SharedPrefixLength(elements, x)]));
    }

    /** `SearchShared` with `processedEndOfString` as written, failing at the root. */
    method SearchSharedAsWritten(x: string) returns (sctx: SearchContext, panicked: bool)
      requires Valid() && InAlphabet(x, capacity - 1) && elements != {}
      ensures fresh(sctx)
      ensures panicked <==> Sub(elements, Digits(x)[..1]) == {}
      ensures !panicked ==> StoppedUnder(sctx, x)
      ensures !panicked ==> Sub(elements, sctx.path) == WithPrefix(elements, x[..SharedPrefixLength(elements, x)])
    {
      var searchResult;
      sctx, searchResult := SearchFor(x);
      panicked := LeaveLeafAsWritten(x, sctx, searchResult);
      if !panicked {
        StoppedShared(sctx, x);
      }
    }

    /** A fresh context and `find` for `x` in a non-empty trie. */
    method SearchFor(x: string) returns (sctx: SearchContext, r: SearchResult)
      requires Valid() && InAlphabet(x, capacity - 1) && elements != {}
      ensures fresh(sctx) && Searched(sctx, x, r)
    {
      sctx := new SearchContext();
      r := Find(x, sctx);
    }

    /** What a search for `x` in a non-empty trie ends with: the leaf of `x`, or an internal node on its path with no child for the next digit. */
    ghost predicate Searched(sctx: SearchContext, x: string, r: SearchResult)
      reads this, heap, sctx
    {
      && root != Nil && sctx.digitizer == digitizer && sctx.At(Shape()) && 0 <= sctx.pointer < |heap.nodes|
      && (r == Matched || r == Unmatched)
      && (r == Matched ==> sctx.path == Digits(x) && heap.nodes[sctx.pointer].kind.Leaf?)
      && (r == Unmatched ==>
            && heap.nodes[sctx.pointer].kind.Internal? && IsPrefix(sctx.path, Digits(x)) && |sctx.path| < |Digits(x)|
            && Digits(x)[..|sctx.path| + 1] !in nodeAt)
    }

    /**
     * The context stands on the node at a path of the digits of `x` no longer than `x`, with no
     * node for the next digit of `x` when it is shorter.
     */
    ghost predicate StoppedUnder(sctx: SearchContext, x: string)
      reads this, heap, sctx
    {
      && Tree(heap.nodes, Shape(), []) && sctx.At(Shape()) && sctx.digitizer == digitizer
      && digitizer.Base() == capacity
      && IsPrefix(sctx.path, Digits(x)) && |sctx.path| <= |x|
      && (|sctx.path| < |x| ==> Digits(x)[..|sctx.path| + 1] !in nodeAt)
    }

    /** Where a search stopped under `x`, its subtree holds the strings with prefix `x`, if any do. */
    lemma StoppedSubtree(sctx: SearchContext, x: string)
      requires Valid() && InAlphabet(x, capacity - 1) && StoppedUnder(sctx, x)
      ensures |sctx.path| == |x| ==> Sub(elements, sctx.path) == WithPrefix(elements, x)
      ensures |sctx.path| < |x| ==> WithPrefix(elements, x) == {}
    {
      SearchEndSubtreeOn(Shape(), x, sctx.path);
    }

    /** Where a search stopped under `x`, its subtree holds the strings sharing the longest prefix with `x`. */
    lemma StoppedShared(sctx: SearchContext, x: string)
      requires Valid() && InAlphabet(x, capacity - 1) && StoppedUnder(sctx, x) && elements != {}
      ensures Sub(elements, sctx.path) == WithPrefix(elements, x[..SharedPrefixLength(elements, x)])
    {
      SearchEndSharedOn(Shape(), x, sctx.path);
    }

    /**
     * The step `if sctx.processedEndOfString() { sctx.ascend() }` after a search for `x`: a leaf
     * reached is left for its parent, so the context stands where the characters of `x` lead.
     */
    method LeaveLeaf(x: string, sctx: SearchContext, r: SearchResult)
      requires Valid() && InAlphabet(x, capacity - 1) && elements != {} && Searched(sctx, x, r)
      modifies sctx
      ensures StoppedUnder(sctx, x)
      ensures r == Matched ==> |sctx.path| == |x|
    {
      StopPath(x, sctx, r);
      if sctx.ProcessedEndOfString(heap) {
        var _ := sctx.Ascend(heap, Shape(), []);
      }
    }

    /**
     * The same step as written: `processedEndOfString` fails at the root, where the search stops
     * exactly when no stored string has the first digit of `x`.
     */
    method LeaveLeafAsWritten(x: string, sctx: SearchContext, r: SearchResult) returns (panicked: bool)
      requires Valid() && InAlphabet(x, capacity - 1) && elements != {} && Searched(sctx, x, r)
      modifies sctx
      ensures panicked <==> Sub(elements, Digits(x)[..1]) == {}
      ensures !panicked ==> StoppedUnder(sctx, x)
      ensures !panicked && r == Matched ==> |sctx.path| == |x|
    {
      StopPath(x, sctx, r);
      ProcessedEndOfStringAsWrittenAtRoot(sctx, heap, Shape());
      StopsAtRootOn(Shape(), x, sctx.path);
      var processed := sctx.ProcessedEndOfStringAsWritten(heap);
      if processed.None? {
        return true;
      }
      if processed.value {
        var _ := sctx.Ascend(heap, Shape(), []);
      }
      return false;
    }

    /** Where a search for `x` in a non-empty trie stops: a leaf exactly when `x` is stored. */
    lemma StopPath(x: string, sctx: SearchContext, r: SearchResult)
      requires Valid() && InAlphabet(x, capacity - 1) && elements != {} && Searched(sctx, x, r)
      ensures Tree(heap.nodes, Shape(), []) && WellFormed(heap.nodes)
      ensures !heap.nodes[sctx.pointer].isRoot ==> heap.nodes[sctx.pointer].parent != Nil
      ensures sctx.ProcessedEndOfString(heap) <==> r == Matched
    {
      ProcessedEndOfStringIffLeafPath(sctx, heap, Shape());
      assert NodeOk(heap.nodes, Shape(), [], sctx.path);
    }

  
    // -------------------------------------------------------------------------------------
    // Iteration
    // -------------------------------------------------------------------------------------

    /** What `skipRemovedElements` leaves: a valid trie with the same strings in the same order. */
    lemma CompressedValid(ns: seq<Node>, t: int)
      requires ValidOn(ns)
      ensures ValidOn(Compressed(ns, order, tail, rank, clock, t))
      ensures ContentsOf(Compressed(ns, order, tail, rank, clock, t), order) == ContentsOf(ns, order)
    {
      var ns' := Compressed(ns, order, tail, rank, clock, t);
      CompressedKeeps(ns, head, tail, order, rank, clock, t);
      StoredSkeleton(ns, ns', order, elements, nodeAt);
      if root != Nil {
        TreeFrame(ns, ns', Shape(), []);
      }
    }

    /** The stored strings in iteration order, gathered by an iterator from the head. */
    method Values() returns (values: seq<string>)
      requires Valid()
      modifies heap
      ensures heap.nodes == old(heap.nodes) && values == Contents()
    {
      ghost var O, ns := order, heap.nodes;
      ghost var C := ContentsOf(ns, O);
      var it := new Iterator(this, head);
      values := [];
      var more := it.Advance();
      while more
        invariant it.Valid() && it.trie == this && heap.nodes == ns
        invariant |values| <= |O| && values == C[..|values|]
        invariant more <==> |values| < |O|
        invariant more ==> it.pointer == O[|values|]
        decreases |O| - |values|
      {
        values, more := Collect(it, values, C);
      }
    }

    /** One round of the loop of `values`: the string the iterator stands on is appended, and the iterator advances. */
    method Collect(it: Iterator, values: seq<string>, ghost C: seq<string>) returns (values': seq<string>, more: bool)
      requires Valid() && it.Valid() && it.trie == this && C == Contents()
      requires |values| < |order| && values == C[..|values|] && it.pointer == order[|values|]
      modifies it, heap
      ensures it.Valid() && heap.nodes == old(heap.nodes) && unchanged(this)
      ensures |values'| == |values| + 1 && values' == C[..|values'|]
      ensures more <==> |values'| < |order|
      ensures more ==> it.pointer == order[|values'|]
    {
      var v := it.Get();
      assert v.value == C[|values|];
      PrefixStep(C, |values|);
      values' := values + [v.value];
      more := it.Advance();
    }

    /** The string at position `index` of the iteration order, reached by `index + 1` advances from the head. */
    method ValueWithIndex(index: int) returns (value: Option<string>, err: Option<TrieError>)
      requires Valid()
      modifies heap
      ensures heap.nodes == old(heap.nodes) && err == CheckBounds(index)
      ensures 0 <= index < |elements| ==> value == Some(Contents()[index])
      ensures !(0 <= index < |elements|) ==> value == None
    {
      err := CheckBounds(index);
      if err != None {
        return None, err;
      }
      SortedCard(Contents(), elements);
      value := ValueAt(index);
    }

    /** The loop of `valueWithIndex`: an iterator from the head, advanced `index + 1` times. */
    method ValueAt(index: int) returns (value: Option<string>)
      requires Valid() && 0 <= index < |order|
      modifies heap
      ensures heap.nodes == old(heap.nodes) && value == Some(Contents()[index])
    {
      var it := new Iterator(this, head);
      var i := 0;
      while i < index + 1
        invariant 0 <= i <= index + 1 <= |order| && it.Valid() && it.trie == this && heap.nodes == old(heap.nodes)
        invariant i == 0 ==> it.pointer == head
        invariant i > 0 ==> it.pointer == order[i - 1]
      {
        Skip(it, i);
        assert it.pointer == order[i];
        i := i + 1;
      }
      assert it.pointer == order[index] && Contents()[index] == heap.nodes[order[index]].element;
      value := it.Get();
    }

    /** One round of the loop of `valueWithIndex`: the iterator moves from position `i - 1` to position `i`. */
    method Skip(it: Iterator, ghost i: int)
      requires it.Valid() && it.trie == this && 0 <= i < |order|
      requires i == 0 ==> it.pointer == head
      requires i > 0 ==> it.pointer == order[i - 1]
      modifies it, heap
      ensures it.Valid() && heap.nodes == old(heap.nodes) && unchanged(this) && it.pointer == order[i]
    {
      var _ := it.Advance();
    }

    /** Removes every string, walking an iterator from the head and removing each one it stands on. */
    method Clear()
      requires Valid()
      modifies this, heap
      ensures Valid() && elements == {} && order == [] && Contents() == [] && size == 0
    {
      var it := new Iterator(this, head);
      var more := it.Advance();
      while more
        invariant it.Valid() && it.trie == this
        invariant more ==> order != [] && it.pointer == order[0]
        invariant !more ==> order == []
        decreases |order|
      {
        more := Drop(it);
      }
      SortedCard(Contents(), elements);
    }

    /** One round of the loop of `clear`: the first string is removed and the iterator moves to the next. */
    method Drop(it: Iterator) returns (more: bool)
      requires it.Valid() && it.trie == this && order != [] && it.pointer == order[0]
      modifies this, heap, it
      ensures it.Valid() && it.trie == this && order == old(order)[1..]
      ensures more ==> order != [] && it.pointer == order[0]
      ensures !more ==> order == []
    {
      it.Remove();
      more := it.Advance();
    }
}

  /** A cursor on the leaf list of a trie: a sentinel, the leaf of a stored string or a tombstone. */
  class Iterator {
    const trie: Trie
    var pointer: int

    ghost predicate Valid()
      reads this, trie, trie.heap
    {
      trie.Valid() && OnList(trie.head, trie.tail, trie.order, trie.rank, pointer)
    }

    constructor (trie: Trie, pointer: int)
      requires trie.Valid() && OnList(trie.head, trie.tail, trie.order, trie.rank, pointer)
      ensures Valid() && this.trie == trie && this.pointer == pointer
    {
      this.trie := trie;
      this.pointer := pointer;
    }

    /** The iterator stands on a stored string: neither a sentinel nor a tombstone. */
    predicate InCollection()
      reads this, trie, trie.heap
      requires Valid()
      ensures InCollection() <==> pointer in trie.order
    {
      Cursor(trie.heap.nodes, trie.head, trie.tail, trie.order, trie.rank, trie.clock, pointer);
      !(trie.heap.nodes[pointer].kind.isHead || trie.heap.nodes[pointer].kind.isTail) && !trie.heap.IsDeleted(pointer)
    }

    /** The string the iterator stands on, if any. */
    function Get(): (r: Option<string>)
      reads this, trie, trie.heap
      requires Valid()
      ensures r.Some? <==> pointer in trie.order
      ensures r.Some? ==> r.value == trie.heap.nodes[pointer].element
    {
      if InCollection() then Some(trie.heap.nodes[pointer].element) else None
    }

    /**
     * Follows `next` from `l` past tombstones, pointing each tombstone passed straight at the live
     * leaf or the tail the chain ends at, and returns that node.
     */
    method SkipRemovedElements(l: int) returns (r: int)
      requires trie.Valid() && OnList(trie.head, trie.tail, trie.order, trie.rank, l)
      modifies trie.heap
      ensures trie.heap.nodes == Compressed(old(trie.heap.nodes), trie.order, trie.tail, trie.rank, trie.clock, l)
      ensures r == Resolve(old(trie.heap.nodes), trie.order, trie.tail, trie.rank, trie.clock, l)
      decreases if l in trie.rank then trie.clock - trie.rank[l] else 0
    {
      Cursor(trie.heap.nodes, trie.head, trie.tail, trie.order, trie.rank, trie.clock, l);
      if trie.heap.nodes[l].kind.isHead || trie.heap.nodes[l].kind.isTail || !trie.heap.IsDeleted(l) {
        return l;
      }
      assert TombAt(trie.heap.nodes, trie.order, trie.tail, trie.rank, trie.clock, l);
      var s := SkipRemovedElements(trie.heap.nodes[l].kind.next);
      trie.heap.SetNext(l, s);
      r := trie.heap.nodes[l].kind.next;
    }

    /**
     * Moves to the next stored string, or to the tail when there is none; true when it is not the
     * tail. From the tail it stays put. From a tombstone it moves to the node the tombstone resolves
     * to, compressing the chain on the way; the strings and their order are unchanged.
     */
    method Advance() returns (more: bool)
      requires Valid()
      modifies this, trie.heap
      ensures Valid() && trie.Contents() == old(trie.Contents())
      ensures more <==> pointer in trie.order
      ensures more <==> pointer != trie.tail
      ensures old(pointer) == trie.tail ==> pointer == trie.tail && trie.heap.nodes == old(trie.heap.nodes)
      ensures old(pointer) == trie.head ==> pointer == Succ(trie.order, trie.tail, -1) && trie.heap.nodes == old(trie.heap.nodes)
      ensures forall k :: 0 <= k < |trie.order| && trie.order[k] == old(pointer) ==>
                pointer == Succ(trie.order, trie.tail, k) && trie.heap.nodes == old(trie.heap.nodes)
      ensures old(pointer) in trie.rank ==>
                && pointer == Resolve(old(trie.heap.nodes), trie.order, trie.tail, trie.rank, trie.clock, old(pointer))
                && trie.heap.nodes == Compressed(old(trie.heap.nodes), trie.order, trie.tail, trie.rank, trie.clock, old(pointer))
    {
      ghost var ns := trie.heap.nodes;
      Cursor(ns, trie.head, trie.tail, trie.order, trie.rank, trie.clock, pointer);
      if trie.heap.nodes[pointer].kind.isTail {
        return false;
      }
      if !trie.heap.nodes[pointer].kind.isHead && trie.heap.IsDeleted(pointer) {
        trie.CompressedValid(ns, pointer);
        pointer := SkipRemovedElements(pointer);
      } else {
        forall k | 0 <= k < |trie.order| && trie.order[k] == pointer
          ensures trie.heap.nodes[pointer].kind.next == Succ(trie.order, trie.tail, k)
        {
          assert LiveAt(ns, trie.head, trie.tail, trie.order, k);
        }
        pointer := trie.heap.nodes[pointer].kind.next;
      }
      Cursor(trie.heap.nodes, trie.head, trie.tail, trie.order, trie.rank, trie.clock, pointer);
      return !trie.heap.nodes[pointer].kind.isTail;
    }

    /**
     * The first step of `retreat`: a tombstone the iterator stands on resolves, compressing its
     * chain; the head, the tail and a stored string stay as they are.
     */
    method Settle()
      requires Valid()
      modifies this, trie.heap
      ensures Valid() && trie.Contents() == old(trie.Contents())
      ensures trie.heap.nodes == Compressed(old(trie.heap.nodes), trie.order, trie.tail, trie.rank, trie.clock, old(pointer))
      ensures pointer == Resolve(old(trie.heap.nodes), trie.order, trie.tail, trie.rank, trie.clock, old(pointer))
      ensures pointer == trie.head || pointer == trie.tail || pointer in trie.order
      ensures trie.heap.nodes[trie.tail].kind.previous == old(trie.heap.nodes[trie.tail].kind.previous)
    {
      ghost var ns := trie.heap.nodes;
      Cursor(ns, trie.head, trie.tail, trie.order, trie.rank, trie.clock, pointer);
      Cursor(ns, trie.head, trie.tail, trie.order, trie.rank, trie.clock, trie.tail);
      trie.CompressedValid(ns, pointer);
      CompressedKeepsPrevious(ns, trie.order, trie.tail, trie.rank, trie.clock, pointer);
      if !trie.heap.nodes[pointer].kind.isTail && !trie.heap.nodes[pointer].kind.isHead && trie.heap.IsDeleted(pointer) {
        pointer := SkipRemovedElements(pointer);
      }
    }

    /**
     * Moves to the stored string before the one the iterator stands on (a tombstone first resolves,
     * compressing the chain); true when that is not the head. A `previous` link that is nil (at the
     * head, or at the tail of a trie that never held a string) is a nil dereference: None, and
     * the iterator stays where it resolved to.
     */
    method Retreat() returns (r: Option<bool>)
      requires Valid()
      modifies this, trie.heap
      ensures Valid() && trie.Contents() == old(trie.Contents())
      ensures trie.heap.nodes == Compressed(old(trie.heap.nodes), trie.order, trie.tail, trie.rank, trie.clock, old(pointer))
      ensures var n := Resolve(old(trie.heap.nodes), trie.order, trie.tail, trie.rank, trie.clock, old(pointer));
              && (n == trie.head ==> r.None? && pointer == n)
              && (forall k :: 0 <= k < |trie.order| && trie.order[k] == n ==>
                    pointer == Pred(trie.order, trie.head, k) && r == Some(k > 0))
              && (n == trie.tail && trie.order != [] ==> pointer == trie.order[|trie.order| - 1] && r == Some(true))
              && (n == trie.tail && trie.order == [] && old(trie.heap.nodes[trie.tail].kind.previous) == Nil ==>
                    r.None? && pointer == n)
              && (n == trie.tail && trie.order == [] && old(trie.heap.nodes[trie.tail].kind.previous) != Nil ==>
                    r == Some(false) && pointer == trie.head)
    {
      Settle();
      r := StepBack();
    }

    /**
     * The second step of `retreat`, from the head, the tail or a stored string: follows `previous`,
     * which is nil (a nil dereference: None, staying put) only at the head and at the tail of a trie
     * that never held a string.
     */
    method StepBack() returns (r: Option<bool>)
      requires Valid() && (pointer == trie.head || pointer == trie.tail || pointer in trie.order)
      modifies this
      ensures Valid()
      ensures old(pointer) == trie.head ==> r.None? && pointer == old(pointer)
      ensures forall k :: 0 <= k < |trie.order| && trie.order[k] == old(pointer) ==>
                pointer == Pred(trie.order, trie.head, k) && r == Some(k > 0)
      ensures old(pointer) == trie.tail && trie.order != [] ==> pointer == trie.order[|trie.order| - 1] && r == Some(true)
      ensures old(pointer) == trie.tail && trie.order == [] && trie.heap.nodes[trie.tail].kind.previous == Nil ==>
                r.None? && pointer == old(pointer)
      ensures old(pointer) == trie.tail && trie.order == [] && trie.heap.nodes[trie.tail].kind.previous != Nil ==>
                r == Some(false) && pointer == trie.head
    {
      ghost var q, back := BackStep(trie.heap.nodes, trie.head, trie.tail, trie.order, trie.rank, trie.clock, pointer);
      var previous := trie.heap.nodes[pointer].kind.previous;
      if previous == Nil {
        r := None;
      } else {
        pointer := previous;
        r := Some(!trie.heap.nodes[pointer].kind.isHead);
      }
      assert pointer == q && r == back;
    }

    /**
     * Whether an advance reaches a stored string, the iterator staying put: false at the tail, and
     * otherwise whether the node after the current one (for a tombstone, after compressing its chain,
     * the node it resolves to) is not the tail.
     */
    method HasNext() returns (b: bool)
      requires Valid()
      modifies trie.heap
      ensures Valid() && trie.Contents() == old(trie.Contents())
      ensures trie.heap.nodes == Compressed(old(trie.heap.nodes), trie.order, trie.tail, trie.rank, trie.clock, pointer)
      ensures pointer == trie.tail ==> !b
      ensures pointer == trie.head ==> (b <==> trie.order != [])
      ensures forall k :: 0 <= k < |trie.order| && trie.order[k] == pointer ==> (b <==> k + 1 < |trie.order|)
      ensures pointer in trie.rank ==>
                (b <==> Resolve(old(trie.heap.nodes), trie.order, trie.tail, trie.rank, trie.clock, pointer) != trie.tail)
    {
      ghost var ns := trie.heap.nodes;
      Cursor(ns, trie.head, trie.tail, trie.order, trie.rank, trie.clock, pointer);
      if trie.heap.IsDeleted(pointer) {
        Compress();
      }
      b := NextIsStored();
    }

    /** `skipRemovedElements` from the node the iterator stands on, the iterator staying put. */
    method Compress()
      requires Valid()
      modifies trie.heap
      ensures Valid() && trie.Contents() == old(trie.Contents())
      ensures trie.heap.nodes == Compressed(old(trie.heap.nodes), trie.order, trie.tail, trie.rank, trie.clock, pointer)
      ensures Resolve(trie.heap.nodes, trie.order, trie.tail, trie.rank, trie.clock, pointer)
              == Resolve(old(trie.heap.nodes), trie.order, trie.tail, trie.rank, trie.clock, pointer)
      ensures pointer in trie.rank ==>
                trie.heap.nodes[pointer].kind.next == Resolve(old(trie.heap.nodes), trie.order, trie.tail, trie.rank, trie.clock, pointer)
    {
      ghost var ns := trie.heap.nodes;
      trie.CompressedValid(ns, pointer);
      CompressedKeeps(ns, trie.head, trie.tail, trie.order, trie.rank, trie.clock, pointer);
      var _ := SkipRemovedElements(pointer);
    }

    /**
     * The test `hasNext` ends with: whether neither the current node nor the one its `next` leads
     * to is the tail. After compression that is whether a stored string follows.
     */
    method NextIsStored() returns (b: bool)
      requires Valid()
      requires pointer in trie.rank ==>
                 trie.heap.nodes[pointer].kind.next == Resolve(trie.heap.nodes, trie.order, trie.tail, trie.rank, trie.clock, pointer)
      ensures pointer == trie.tail ==> !b
      ensures pointer == trie.head ==> (b <==> trie.order != [])
      ensures forall k :: 0 <= k < |trie.order| && trie.order[k] == pointer ==> (b <==> k + 1 < |trie.order|)
      ensures pointer in trie.rank ==> (b <==> Resolve(trie.heap.nodes, trie.order, trie.tail, trie.rank, trie.clock, pointer) != trie.tail)
    {
      Cursor(trie.heap.nodes, trie.head, trie.tail, trie.order, trie.rank, trie.clock, pointer);
      forall k | 0 <= k < |trie.order| && trie.order[k] == pointer
        ensures trie.heap.nodes[pointer].kind.next == Succ(trie.order, trie.tail, k)
      {
        assert LiveAt(trie.heap.nodes, trie.head, trie.tail, trie.order, k);
      }
      var next := trie.heap.nodes[pointer].kind.next;
      Cursor(trie.heap.nodes, trie.head, trie.tail, trie.order, trie.rank, trie.clock, next);
      b := !trie.heap.nodes[pointer].kind.isTail && !trie.heap.nodes[next].kind.isTail;
    }

    /**
     * Removes the string the iterator stands on, if any: its leaf becomes a tombstone that resolves
     * to the string after it, so the next advance moves on past the removed string.
     */
    method Remove()
      requires Valid()
      modifies trie, trie.heap
      ensures Valid()
      ensures old(pointer !in trie.order) ==>
                && trie.elements == old(trie.elements) && trie.order == old(trie.order)
                && trie.rank == old(trie.rank) && trie.clock == old(trie.clock) && trie.heap.nodes == old(trie.heap.nodes)
      ensures forall k :: 0 <= k < |old(trie.order)| && old(trie.order)[k] == pointer ==>
                && trie.order == old(trie.order)[..k] + old(trie.order)[k + 1..]
                && trie.elements == old(trie.elements) - {old(trie.heap.nodes)[pointer].element}
                && Resolve(trie.heap.nodes, trie.order, trie.tail, trie.rank, trie.clock, pointer) == Succ(trie.order, trie.tail, k - 1)
    {
      if InCollection() {
        ghost var O, E, ns := trie.order, trie.elements, trie.heap.nodes;
        ghost var k :| 0 <= k < |O| && O[k] == pointer;
        ghost var x := ns[pointer].element;
        trie.RemoveNode(pointer, k, x);
        RemovedResolves(trie.heap.nodes, trie.head, trie.tail, O, trie.order, trie.rank, trie.clock, E, trie.elements, x, k, pointer);
      }
    }
  }
}
