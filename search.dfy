/**
 * The search context: a cursor over the trie made of the current node, the number of digits
 * consumed to reach it (`branchPosition`) and, for the radix tree, a count of matched digits.
 * The ghost `path` is the digit path from the root to the current node.
 */
module Search {
  import opened Wrappers
  import opened Digitizer
  import opened Nodes
  import opened TrieShape
  import opened Lists

  /** How a search for an element ended. */
  datatype SearchResult = Extension | Greater | Less | Matched | Prefix | Unmatched

  /** What a failed descend returns. */
  const ChildNotFound := -1

  /** The stored strings that come before `x`. */
  ghost function Below(E: set<string>, x: string): set<string>
  {
    set e | e in E && Before(e, x)
  }

  /** The strings in the subtree at `p` whose next digit is below `i`. */
  ghost function SlotsBelow(E: set<string>, p: seq<int>, i: int): set<string>
  {
    set e | e in Sub(E, p) && |Digits(e)| > |p| && Digits(e)[|p|] < i
  }

  class SearchContext {
    var pointer: int
    var digitizer: StringDigitizer
    var branchPosition: int
    var numMatches: int
    /** The digit path from the root to `pointer`. */
    ghost var path: seq<int>

    constructor ()
      ensures pointer == Nil && branchPosition == 0 && numMatches == 0 && path == []
    {
      pointer := Nil;
      digitizer := StringDigitizer(0);
      branchPosition := 0;
      numMatches := 0;
      path := [];
    }

    /** The context stands at the node of its path, having consumed one digit per level. */
    ghost predicate At(v: View)
      reads this
    {
      path in v.nodeAt && pointer == v.nodeAt[path] && branchPosition == |path|
    }

    predicate AtLeaf(heap: Arena)
      reads this, heap
      requires Ref(heap.nodes, pointer)
    {
      pointer != Nil && heap.nodes[pointer].kind.Leaf?
    }

    predicate AtRoot(heap: Arena)
      reads this, heap
      requires 0 <= pointer < |heap.nodes|
    {
      heap.nodes[pointer].parent == Nil
    }

    function ChildBranchPosition(index: int): int
      reads this
    {
      branchPosition + 1
    }

    function ParentBranchPosition(): int
      reads this
    {
      branchPosition - 1
    }

    function ChildIndexOf(element: string): int
      reads this
      requires branchPosition >= 0
    {
      digitizer.DigitOf(element, branchPosition)
    }

    /**
     * Moves to the child in slot `index` when there is one: the path grows by `index` and one more
     * digit is consumed. Otherwise nothing changes and ChildNotFound is returned.
     */
    method DescendToIndex(heap: Arena, index: int, ghost v: View, ghost ext: seq<int>) returns (r: int)
      requires Tree(heap.nodes, v, ext) && At(v) && heap.nodes[pointer].kind.Internal?
      modifies this
      ensures digitizer == old(digitizer) && numMatches == old(numMatches)
      ensures 0 <= index < v.capacity && old(path) + [index] in v.nodeAt ==>
                r == index && path == old(path) + [index] && At(v) && branchPosition == old(branchPosition) + 1
      ensures !(0 <= index < v.capacity && old(path) + [index] in v.nodeAt) ==>
                r == ChildNotFound && pointer == old(pointer) && branchPosition == old(branchPosition) && path == old(path)
    {
      assert NodeOk(heap.nodes, v, ext, path);
      var child := heap.ChildWithIndexOf(pointer, index);
      if child.Failure? || child.value == Nil {
        return ChildNotFound;
      }
      branchPosition := ChildBranchPosition(index);
      pointer := child.value;
      path := path + [index];
      return index;
    }

    /** Descends by the digit of `element` at the current position. */
    method DescendTo(heap: Arena, element: string, ghost v: View, ghost ext: seq<int>) returns (r: int)
      requires Tree(heap.nodes, v, ext) && At(v) && heap.nodes[pointer].kind.Internal?
      modifies this
      ensures digitizer == old(digitizer) && numMatches == old(numMatches)
      ensures var index := old(digitizer).DigitOf(element, old(branchPosition));
              && (0 <= index < v.capacity && old(path) + [index] in v.nodeAt ==>
                    r == index && path == old(path) + [index] && At(v))
              && (!(0 <= index < v.capacity && old(path) + [index] in v.nodeAt) ==>
                    r == ChildNotFound && pointer == old(pointer) && path == old(path) && At(v))
    {
      var index := digitizer.DigitOf(element, branchPosition);
      r := DescendToIndex(heap, index, v, ext);
    }

    /** Moves to the parent, undoing one descend. */
    method Ascend(heap: Arena, ghost v: View, ghost ext: seq<int>) returns (bp: int)
      requires Tree(heap.nodes, v, ext) && At(v) && path != []
      modifies this
      ensures digitizer == old(digitizer) && numMatches == old(numMatches)
      ensures path == old(path)[..|old(path)| - 1] && At(v) && bp == branchPosition == old(branchPosition) - 1
    {
      assert NodeOk(heap.nodes, v, ext, path);
      branchPosition := ParentBranchPosition();
      pointer := heap.nodes[pointer].parent;
      path := path[..|path| - 1];
      return branchPosition;
    }

    /**
     * From a node with stored strings below it, follows the highest occupied slot at every level
     * down to a leaf: the greatest string of the subtree.
     */
    method MoveToMaxDescendant(heap: Arena, ghost v: View)
      requires Tree(heap.nodes, v, []) && At(v) && Sub(v.elements, path) != {}
      requires digitizer.Base() == v.capacity
      modifies this
      ensures At(v) && AtLeaf(heap) && digitizer == old(digitizer) && IsPrefix(old(path), path)
      ensures var m := heap.nodes[pointer].element;
              && m in Sub(v.elements, old(path))
              && forall e :: e in Sub(v.elements, old(path)) ==> e == m || Before(e, m)
    {
      ghost var p0 := path;
      while !AtLeaf(heap)
        invariant At(v) && digitizer == old(digitizer)
        invariant IsPrefix(p0, path) && Sub(v.elements, path) != {}
        invariant MaxInvariant(v.elements, p0, path)
        decreases MaxDigits(v.elements) - |path|
      {
        ghost var q := path;
        assert NodeOk(heap.nodes, v, [], q);
        ghost var w :| w in Sub(v.elements, q);
        InnerChild(v, [], q, w);
        var index := DescendToMaxChild(heap, v, Digits(w)[|q|]);
        MaxStep(v, p0, q, index);
        PrefixTransitive(p0, q, path);
      }
      assert NodeOk(heap.nodes, v, [], path);
      LeafSub(heap.nodes, v, [], path);
    }

    /** Descends into the highest occupied slot of the current internal node; `w` is an occupied one. */
    method DescendToMaxChild(heap: Arena, ghost v: View, ghost w: int) returns (index: int)
      requires Tree(heap.nodes, v, []) && At(v) && heap.nodes[pointer].kind.Internal?
      requires digitizer.Base() == v.capacity && 0 <= w < v.capacity && path + [w] in v.nodeAt
      modifies this
      ensures At(v) && digitizer == old(digitizer) && numMatches == old(numMatches)
      ensures 0 <= index < v.capacity && path == old(path) + [index]
      ensures NoSlotAbove(v, old(path), index, v.capacity)
    {
      ghost var q := path;
      index := digitizer.Base() - 1;
      while true
        invariant w <= index < v.capacity && path == q && At(v) && digitizer == old(digitizer) && numMatches == old(numMatches)
        invariant NoSlotAbove(v, q, index, v.capacity)
        decreases index
      {
        var r := DescendToIndex(heap, index, v, []);
        if r != ChildNotFound {
          return;
        }
        NoSlotStep(v, q, index, v.capacity);
        index := index - 1;
      }
    }

    /** Descends into the highest occupied slot below `index` of the current internal node, if any. */
    method DescendToLowerChild(heap: Arena, index: int, ghost v: View) returns (r: int)
      requires Tree(heap.nodes, v, []) && At(v) && heap.nodes[pointer].kind.Internal? && index <= v.capacity
      modifies this
      ensures At(v) && digitizer == old(digitizer) && numMatches == old(numMatches)
      ensures r == ChildNotFound ==> path == old(path) && NoSlotAbove(v, old(path), -1, index)
      ensures r != ChildNotFound ==> 0 <= r < index && path == old(path) + [r] && NoSlotAbove(v, old(path), r, index)
    {
      ghost var q := path;
      var i := index - 1;
      while i >= 0
        invariant i < index && path == q && At(v) && digitizer == old(digitizer) && numMatches == old(numMatches)
        invariant NoSlotAbove(v, q, i, index)
        decreases i + 1
      {
        r := DescendToIndex(heap, i, v, []);
        if r != ChildNotFound {
          return;
        }
        NoSlotStep(v, q, i, index);
        i := i - 1;
      }
      r := ChildNotFound;
    }

    /**
     * While retracing towards the last left fork on the path of `x`: the context is on that path,
     * and no stored string before `x` lies below the digit of `x` taken next from here.
     */
    ghost predicate Retracing(heap: Arena, v: View, x: string)
      reads this, heap
    {
      && At(v) && Ref(heap.nodes, pointer) && IsPrefix(path, Digits(x))
      && (AtLeaf(heap) ==> path == Digits(x))
      && (!AtLeaf(heap) ==> |path| < |Digits(x)| && Below(v.elements, x) * Sub(v.elements, Digits(x)[..|path| + 1]) == {})
    }

    /** What retracing promises on exit: the subtree reached holds the strings just before `x`, if there are any. */
    ghost predicate RetracedTo(heap: Arena, v: View, x: string)
      reads this, heap
    {
      && At(v) && 0 <= pointer < |heap.nodes|
      && (path == [] ==> AtRoot(heap) && Below(v.elements, x) == {})
      && (path != [] ==> !AtRoot(heap) && Sub(v.elements, path) != {} && Sub(v.elements, path) <= Below(v.elements, x))
      && (path != [] ==> forall e :: e in Below(v.elements, x) && e !in Sub(v.elements, path) ==> LexLess(Digits(e), path))
    }

    /**
     * Walks up from the node reached by a search for `x` to the nearest ancestor with an occupied
     * slot below `x`'s digit, and steps into the highest such slot: the subtree holding the
     * greatest stored string before `x`. Stops at the root when there is none.
     */
    method RetraceToLastLeftFork(heap: Arena, x: string, ghost v: View)
      requires Tree(heap.nodes, v, []) && InAlphabet(x, v.capacity - 1) && Retracing(heap, v, x)
      modifies this
      ensures digitizer == old(digitizer) && RetracedTo(heap, v, x)
    {
      while true
        invariant digitizer == old(digitizer) && Retracing(heap, v, x)
        decreases |path|
      {
        var done := RetraceStep(heap, x, v);
        if done {
          return;
        }
      }
    }

    /** One round of the retrace: look for a fork below `x`'s digit here, else stop at the root or go up. */
    method RetraceStep(heap: Arena, x: string, ghost v: View) returns (done: bool)
      requires Tree(heap.nodes, v, []) && InAlphabet(x, v.capacity - 1) && Retracing(heap, v, x)
      modifies this
      ensures digitizer == old(digitizer)
      ensures done ==> RetracedTo(heap, v, x)
      ensures !done ==> Retracing(heap, v, x) && |path| < |old(path)|
    {
      if !AtLeaf(heap) {
        var found := LookForFork(heap, x, v);
        if found {
          return true;
        }
      } else {
        LeafNotBelow(v, x);
      }
      RootIffEmptyPath(heap.nodes, v, [], path);
      if AtRoot(heap) {
        assert Sub(v.elements, []) == v.elements;
        return true;
      }
      ghost var q := path;
      var _ := Ascend(heap, v, []);
      Ascended(heap, x, v, q);
      return false;
    }

    /** One level up from `q`, a non-root node on `x`'s path with nothing before `x` below it. */
    lemma Ascended(heap: Arena, x: string, v: View, q: seq<int>)
      requires Tree(heap.nodes, v, []) && InAlphabet(x, v.capacity - 1) && At(v)
      requires IsPrefix(q, Digits(x)) && q != [] && path == q[..|q| - 1]
      requires Below(v.elements, x) * Sub(v.elements, q) == {}
      ensures Retracing(heap, v, x)
    {
      RetraceAscend(x, q, v.capacity);
      assert NodeOk(heap.nodes, v, [], path);
    }

    /** At an internal node on `x`'s path: descend into the highest occupied slot below `x`'s digit, if any. */
    method LookForFork(heap: Arena, x: string, ghost v: View) returns (found: bool)
      requires Tree(heap.nodes, v, []) && InAlphabet(x, v.capacity - 1) && Retracing(heap, v, x) && !AtLeaf(heap)
      modifies this
      ensures digitizer == old(digitizer)
      ensures found ==> RetracedTo(heap, v, x)
      ensures !found ==> path == old(path) && At(v) && Below(v.elements, x) * Sub(v.elements, path) == {}
    {
      ghost var q := path;
      ghost var dx := Digits(x);
      DigitsProper(x, v.capacity);
      assert dx[..|q|] == q;
      var index := digitizer.DigitOf(x, branchPosition);
      DigitsInRange(v.capacity - 1, x, |q|);
      var r := DescendToLowerChild(heap, index, v);
      if r != ChildNotFound {
        RetraceFork(v, x, q, r);
        RootIffEmptyPath(heap.nodes, v, [], path);
        return true;
      }
      RetraceNoFork(v, x, q);
      return false;
    }

    /**
     * Appends every string of the subtree at the current node to `out`, visiting slots in ascending
     * order, and comes back to the node it started from.
     */
    method ElementsInSubtree(heap: Arena, out: ArrayList<string>, ghost v: View) returns (ghost s: seq<string>)
      requires Tree(heap.nodes, v, []) && At(v) && digitizer.Base() == v.capacity
      modifies this, out
      decreases MaxDigits(v.elements) + 1 - |path|, 2
      ensures pointer == old(pointer) && branchPosition == old(branchPosition) && path == old(path)
      ensures digitizer == old(digitizer) && numMatches == old(numMatches)
      ensures out.elements == old(out.elements) + s
      ensures StrictlySorted(s) && (set e | e in s) == Sub(v.elements, path)
    {
      PathBound(heap.nodes, v, path);
      assert NodeOk(heap.nodes, v, [], path);
      if AtLeaf(heap) {
        var _ := out.Add(heap.nodes[pointer].element);
        s := [heap.nodes[pointer].element];
        LeafSub(heap.nodes, v, [], path);
      } else {
        s := CollectSlots(heap, out, v);
      }
    }

    /** The strings below every slot of the current internal node, appended to `out` slot by slot. */
    method CollectSlots(heap: Arena, out: ArrayList<string>, ghost v: View) returns (ghost s: seq<string>)
      requires Tree(heap.nodes, v, []) && At(v) && digitizer.Base() == v.capacity
      requires heap.nodes[pointer].kind.Internal?
      modifies this, out
      decreases MaxDigits(v.elements) + 1 - |path|, 1
      ensures pointer == old(pointer) && branchPosition == old(branchPosition) && path == old(path)
      ensures digitizer == old(digitizer) && numMatches == old(numMatches)
      ensures out.elements == old(out.elements) + s
      ensures StrictlySorted(s) && (set e | e in s) == Sub(v.elements, path)
    {
      PathBound(heap.nodes, v, path);
      assert NodeOk(heap.nodes, v, [], path);
      s := [];
      NoSlotsBelowZero(v.elements, path);
      var i := 0;
      while i < digitizer.Base()
        invariant 0 <= i <= v.capacity && At(v) && path == old(path)
        invariant pointer == old(pointer) && digitizer == old(digitizer) && numMatches == old(numMatches)
        invariant out.elements == old(out.elements) + s
        invariant StrictlySorted(s) && (set e | e in s) == SlotsBelow(v.elements, path, i)
      {
        ghost var t := CollectSlot(heap, out, i, v);
        SlotStep(v, path, i, s, t);
        AppendAssoc(old(out.elements), s, t);
        s := s + t;
        i := i + 1;
      }
      SlotsAll(v, path);
    }

    /** The strings below slot `index` of the current internal node, appended to `out` in order. */
    method CollectSlot(heap: Arena, out: ArrayList<string>, index: int, ghost v: View) returns (ghost t: seq<string>)
      requires Tree(heap.nodes, v, []) && At(v) && digitizer.Base() == v.capacity
      requires heap.nodes[pointer].kind.Internal? && 0 <= index
      modifies this, out
      decreases MaxDigits(v.elements) + 1 - |path|, 0
      ensures pointer == old(pointer) && branchPosition == old(branchPosition) && path == old(path)
      ensures digitizer == old(digitizer) && numMatches == old(numMatches)
      ensures out.elements == old(out.elements) + t
      ensures StrictlySorted(t) && (set e | e in t) == Sub(v.elements, path + [index])
    {
      PathBound(heap.nodes, v, path);
      ghost var q := path;
      var r := DescendToIndex(heap, index, v, []);
      if r != ChildNotFound {
        t := ElementsInSubtree(heap, out, v);
        var _ := Ascend(heap, v, []);
        assert q + [index] == path + [index];
      } else {
        t := [];
        EmptySlot(v, q, index);
      }
    }

    /** Whether the context stands on a leaf reached through slot 0, the end-of-string digit; the root test comes first. */
    predicate ProcessedEndOfString(heap: Arena)
      reads this, heap
      requires 0 <= pointer < |heap.nodes| && WellFormed(heap.nodes)
      requires !heap.nodes[pointer].isRoot ==> heap.nodes[pointer].parent != Nil
    {
      && digitizer.IsPrefixFree()
      && !heap.nodes[pointer].isRoot
      && match heap.ChildWithIndexOf(heap.nodes[pointer].parent, 0)
         case Success(c) => c == pointer
         case Failure(_) => false
    }

    /**
     * `processedEndOfString` as written: it reads slot 0 of the parent before the root test, so at
     * the root, whose parent is nil, it dereferences nil (None here).
     */
    function ProcessedEndOfStringAsWritten(heap: Arena): (r: Option<bool>)
      reads this, heap
      requires 0 <= pointer < |heap.nodes| && WellFormed(heap.nodes)
      ensures r.None? <==> heap.nodes[pointer].parent == Nil
    {
      var parent := heap.nodes[pointer].parent;
      if parent == Nil then None
      else
        var child := match heap.ChildWithIndexOf(parent, 0) case Success(c) => c case Failure(_) => Nil;
        Some(digitizer.IsPrefixFree() && !heap.nodes[pointer].isRoot && child == pointer)
    }
  }

  // ---------------------------------------------------------------------------------------
  // Lemmas about the search steps
  // ---------------------------------------------------------------------------------------

  /** No slot of the node at `q` strictly between `lo` and `hi` has a node. */
  ghost predicate NoSlotAbove(v: View, q: seq<int>, lo: int, hi: int)
  {
    forall d :: lo < d < hi ==> q + [d] !in v.nodeAt
  }

  lemma NoSlotAt(v: View, q: seq<int>, lo: int, hi: int, d: int)
    requires NoSlotAbove(v, q, lo, hi) && q + [d] in v.nodeAt
    ensures !(lo < d < hi)
  {
  }

  lemma NoSlotStep(v: View, q: seq<int>, lo: int, hi: int)
    requires NoSlotAbove(v, q, lo, hi) && q + [lo] !in v.nodeAt
    ensures NoSlotAbove(v, q, lo - 1, hi)
  {
  }

  /** A search context stands on a node reached through slot 0 exactly when its path is a leaf path. */
  lemma ProcessedEndOfStringIffLeafPath(sctx: SearchContext, heap: Arena, v: View)
    requires Tree(heap.nodes, v, []) && sctx.At(v)
    ensures 0 <= sctx.pointer < |heap.nodes| && WellFormed(heap.nodes)
    ensures !heap.nodes[sctx.pointer].isRoot ==> heap.nodes[sctx.pointer].parent != Nil
    ensures sctx.ProcessedEndOfString(heap) <==> EndsString(sctx.path)
  {
    assert NodeOk(heap.nodes, v, [], sctx.path);
    if sctx.path != [] {
      SlotZeroIffEndsString(heap.nodes, v, sctx.path);
    }
  }

  /** A non-root node hangs in slot 0 of its parent exactly when its path ends with the end-of-string digit. */
  lemma SlotZeroIffEndsString(ns: seq<Node>, v: View, p: seq<int>)
    requires Tree(ns, v, []) && p in v.nodeAt && p != []
    ensures var n := ns[v.nodeAt[p]];
            && 0 <= n.parent < |ns| && |ns[n.parent].children| == v.capacity >= 1
            && (ns[n.parent].children[0] == v.nodeAt[p] <==> EndsString(p))
  {
    assert NodeOk(ns, v, [], p);
    var q := p[..|p| - 1];
    assert NodeOk(ns, v, [], q);
    var e :| e in Sub(v.elements, p);
    DigitsProper(e, v.capacity);
    assert p == q + [p[|p| - 1]];
    PrefixTransitive(q, p, Digits(e));
    assert !EndsString(q) by {
      if |q| > 0 {
        assert q[|q| - 1] == Digits(e)[|q| - 1];
      }
    }
    var parent := ns[v.nodeAt[p]].parent;
    assert ns[parent].children[0] == (if q + [0] in v.nodeAt then v.nodeAt[q + [0]] else Nil);
    if q + [0] in v.nodeAt && v.nodeAt[q + [0]] == v.nodeAt[p] {
      assert !Apart(v.nodeAt, q + [0], p);
    }
  }

  /**
   * `processedEndOfString` as written agrees with the corrected predicate away from the root, and
   * fails (a nil dereference) at the root, where the corrected predicate is false.
   */
  lemma ProcessedEndOfStringAsWrittenAtRoot(sctx: SearchContext, heap: Arena, v: View)
    requires Tree(heap.nodes, v, []) && sctx.At(v)
    ensures 0 <= sctx.pointer < |heap.nodes| && WellFormed(heap.nodes)
    ensures !heap.nodes[sctx.pointer].isRoot ==> heap.nodes[sctx.pointer].parent != Nil
    ensures sctx.path == [] ==> sctx.ProcessedEndOfStringAsWritten(heap).None? && !sctx.ProcessedEndOfString(heap)
    ensures sctx.path != [] ==> sctx.ProcessedEndOfStringAsWritten(heap) == Some(sctx.ProcessedEndOfString(heap))
  {
    assert NodeOk(heap.nodes, v, [], sctx.path);
    RootIffEmptyPath(heap.nodes, v, [], sctx.path);
  }

  /** Every stored string of the starting subtree is in the current subtree or comes before it. */
  ghost predicate MaxInvariant(E: set<string>, p0: seq<int>, q: seq<int>)
  {
    && Sub(E, q) <= Sub(E, p0)
    && forall e :: e in Sub(E, p0) && e !in Sub(E, q) ==> LexLess(Digits(e), q)
  }

  /** Stepping into the highest occupied slot keeps every string outside the new subtree before it. */
  lemma MaxStep(v: View, p0: seq<int>, q: seq<int>, i: int)
    requires v.capacity >= 1 && Shaped(v, []) && (forall e :: e in v.elements ==> InAlphabet(e, v.capacity - 1))
    requires !EndsString(q) && 0 <= i < v.capacity && q + [i] in v.nodeAt
    requires NoSlotAbove(v, q, i, v.capacity)
    requires MaxInvariant(v.elements, p0, q)
    ensures MaxInvariant(v.elements, p0, q + [i]) && Sub(v.elements, q + [i]) != {}
  {
    var E := v.elements;
    assert IsPrefix(q, q + [i]);
    SubMonotone(E, q, q + [i]);
    forall e | e in Sub(E, p0) && e !in Sub(E, q + [i]) ensures LexLess(Digits(e), q + [i]) {
      if e in Sub(E, q) {
        InnerChild(v, [], q, e);
        var d := Digits(e)[|q|];
        assert d != i;
        assert d < i;
        assert Digits(e)[..|q|] == q == (q + [i])[..|q|];
        assert LessAt(Digits(e), q + [i], |q|);
      } else {
        LexLessExtend(Digits(e), q, q + [i]);
      }
    }
  }

  /** A string before `x` outside the subtree at a prefix `q` of `x`'s digits comes before `q`. */
  lemma BelowOutside(x: string, e: string, q: seq<int>)
    requires IsPrefix(q, Digits(x)) && Before(e, x) && !IsPrefix(q, Digits(e))
    ensures LexLess(Digits(e), q)
  {
    var de, dx := Digits(e), Digits(x);
    var j :| LessAt(de, dx, j);
    assert forall i :: 0 <= i < j ==> de[i] == dx[..j][i];
    assert forall i :: 0 <= i < |q| ==> q[i] == dx[i];
    assert j < |q|;
    assert q[..j] == dx[..j];
    assert LessAt(de, q, j);
  }

  /**
   * The one fact about retracing at a fork: the highest occupied slot below `x`'s digit holds
   * strings before `x`, and every other string before `x` comes before that slot's path.
   */
  lemma RetraceFork(v: View, x: string, q: seq<int>, i: int)
    requires v.capacity >= 1 && Shaped(v, []) && (forall e :: e in v.elements ==> InAlphabet(e, v.capacity - 1))
    requires InAlphabet(x, v.capacity - 1) && IsPrefix(q, Digits(x)) && |q| < |Digits(x)| && !EndsString(q)
    requires Below(v.elements, x) * Sub(v.elements, Digits(x)[..|q| + 1]) == {}
    requires 0 <= i < Digits(x)[|q|] && q + [i] in v.nodeAt
    requires NoSlotAbove(v, q, i, Digits(x)[|q|])
    ensures Sub(v.elements, q + [i]) != {} && Sub(v.elements, q + [i]) <= Below(v.elements, x)
    ensures forall e :: e in Below(v.elements, x) && e !in Sub(v.elements, q + [i]) ==> LexLess(Digits(e), q + [i])
  {
    var E, dx := v.elements, Digits(x);
    assert dx[..|q| + 1] == q + [dx[|q|]];
    forall e | e in Sub(E, q + [i]) ensures e in Below(E, x) {
      var de := Digits(e);
      assert de[..|q| + 1] == q + [i];
      assert de[..|q|] == q;
      assert LessAt(de, dx, |q|);
    }
    forall e | e in Below(E, x) && e !in Sub(E, q + [i]) ensures LexLess(Digits(e), q + [i]) {
      if e in Sub(E, q) {
        ForkSibling(v, x, q, i, e);
      } else {
        BelowOutside(x, e, q);
        LexLessExtend(Digits(e), q, q + [i]);
      }
    }
  }

  /** A string before `x` in a slot of `q` other than the fork's slot `i` comes before the fork. */
  lemma ForkSibling(v: View, x: string, q: seq<int>, i: int, e: string)
    requires v.capacity >= 1 && Shaped(v, []) && (forall e :: e in v.elements ==> InAlphabet(e, v.capacity - 1))
    requires InAlphabet(x, v.capacity - 1) && IsPrefix(q, Digits(x)) && |q| < |Digits(x)| && !EndsString(q)
    requires Below(v.elements, x) * Sub(v.elements, Digits(x)[..|q| + 1]) == {}
    requires 0 <= i < Digits(x)[|q|] && NoSlotAbove(v, q, i, Digits(x)[|q|])
    requires e in Below(v.elements, x) && e in Sub(v.elements, q) && e !in Sub(v.elements, q + [i])
    ensures LexLess(Digits(e), q + [i])
  {
    var E, dx, de := v.elements, Digits(x), Digits(e);
    assert dx[..|q| + 1] == q + [dx[|q|]];
    InnerChild(v, [], q, e);
    var d := de[|q|];
    assert de[..|q| + 1] == q + [d];
    OutsideSubtree(E, x, e, dx[..|q| + 1]);
    LexLessAtDifference(de, dx, |q|);
    assert d != i by {
      assert e in Sub(E, q + [d]);
    }
    NoSlotAt(v, q, i, dx[|q|], d);
    assert LessAt(de, q + [i], |q|);
  }

  /** With no occupied slot below `x`'s digit, the subtree holds nothing before `x`. */
  lemma RetraceNoFork(v: View, x: string, q: seq<int>)
    requires v.capacity >= 1 && Shaped(v, []) && (forall e :: e in v.elements ==> InAlphabet(e, v.capacity - 1))
    requires InAlphabet(x, v.capacity - 1) && IsPrefix(q, Digits(x)) && |q| < |Digits(x)| && !EndsString(q)
    requires Below(v.elements, x) * Sub(v.elements, Digits(x)[..|q| + 1]) == {}
    requires NoSlotAbove(v, q, -1, Digits(x)[|q|])
    ensures Below(v.elements, x) * Sub(v.elements, q) == {}
  {
    var E, dx := v.elements, Digits(x);
    assert dx[..|q| + 1] == q + [dx[|q|]];
    forall e | e in Below(E, x) && e in Sub(E, q) ensures false {
      var de := Digits(e);
      InnerChild(v, [], q, e);
      var d := de[|q|];
      assert de[..|q| + 1] == q + [d];
      OutsideSubtree(E, x, e, dx[..|q| + 1]);
      LexLessAtDifference(de, dx, |q|);
    }
  }

  lemma OutsideSubtree(E: set<string>, x: string, e: string, p: seq<int>)
    requires Below(E, x) * Sub(E, p) == {} && e in Below(E, x)
    ensures !IsPrefix(p, Digits(e))
  {
    assert e !in Below(E, x) * Sub(E, p);
  }

  /** One step up while retracing: the parent path is not a leaf path and its next digit on `x`'s path leads back. */
  lemma RetraceAscend(x: string, q: seq<int>, capacity: int)
    requires capacity >= 1 && InAlphabet(x, capacity - 1) && IsPrefix(q, Digits(x)) && q != []
    ensures var p := q[..|q| - 1];
            && IsPrefix(p, Digits(x)) && |p| < |Digits(x)| && Digits(x)[..|p| + 1] == q && !EndsString(p)
  {
    var p, dx := q[..|q| - 1], Digits(x);
    DigitsProper(x, capacity);
    assert q == p + [q[|q| - 1]];
    PrefixTransitive(p, q, dx);
    if |p| > 0 {
      assert p[|p| - 1] == dx[|p| - 1];
    }
  }

  /** The subtree at `x`'s own leaf path holds nothing before `x`. */
  lemma LeafNotBelow(v: View, x: string)
    requires v.capacity >= 1 && (forall e :: e in v.elements ==> InAlphabet(e, v.capacity - 1))
    requires InAlphabet(x, v.capacity - 1)
    ensures Below(v.elements, x) * Sub(v.elements, Digits(x)) == {}
  {
    forall e | e in Below(v.elements, x) && e in Sub(v.elements, Digits(x)) ensures false {
      PrefixFree(v.capacity - 1, x, e);
      BeforeIrreflexive(x);
    }
  }

  /** The root is the one node without a parent. */
  lemma RootIffEmptyPath(ns: seq<Node>, v: View, ext: seq<int>, p: seq<int>)
    requires Tree(ns, v, ext) && p in v.nodeAt
    ensures ns[v.nodeAt[p]].parent == Nil <==> p == []
  {
    assert NodeOk(ns, v, ext, p);
    if p != [] {
      assert NodeOk(ns, v, ext, p[..|p| - 1]);
    }
  }

  lemma AppendAssoc<T>(a: seq<T>, b: seq<T>, c: seq<T>)
    ensures (a + b) + c == a + (b + c)
  {
  }

  /** Adding the run of an occupied slot to the runs of the lower slots. */
  lemma SlotStep(v: View, q: seq<int>, i: int, s: seq<string>, t: seq<string>)
    requires v.capacity >= 1 && Shaped(v, []) && (forall e :: e in v.elements ==> InAlphabet(e, v.capacity - 1))
    requires !EndsString(q) && 0 <= i
    requires StrictlySorted(s) && (set e | e in s) == SlotsBelow(v.elements, q, i)
    requires StrictlySorted(t) && (set e | e in t) == Sub(v.elements, q + [i])
    ensures StrictlySorted(s + t) && (set e | e in s + t) == SlotsBelow(v.elements, q, i + 1)
  {
    var E := v.elements;
    forall a, b | a in s && b in t ensures Before(a, b) {
      assert a in SlotsBelow(E, q, i);
      assert b in Sub(E, q + [i]);
      InnerChild(v, [], q, a);
      assert Digits(a)[..|q| + 1] == q + [Digits(a)[|q|]];
      SlotOrder(E, q, Digits(a)[|q|], i, a, b);
    }
    SortedAppend(s, t);
    forall e | e in SlotsBelow(E, q, i + 1) ensures e in s + t {
      if Digits(e)[|q|] < i {
        assert e in SlotsBelow(E, q, i);
      } else {
        assert Digits(e)[..|q| + 1] == Digits(e)[..|q|] + [Digits(e)[|q|]];
        assert e in Sub(E, q + [i]);
      }
    }
    forall e | e in s + t ensures e in SlotsBelow(E, q, i + 1) {
      if e in s {
        assert e in (set e | e in s);
        assert e in SlotsBelow(E, q, i);
        assert e in Sub(E, q) && |Digits(e)| > |q| && Digits(e)[|q|] < i + 1;
      } else {
        assert e in (set e | e in t);
        assert e in Sub(E, q + [i]);
        assert IsPrefix(q, q + [i]);
        SubMonotone(E, q, q + [i]);
        assert Digits(e)[|q|] == Digits(e)[..|q| + 1][|q|] == i;
        assert e in Sub(E, q) && |Digits(e)| > |q| && Digits(e)[|q|] < i + 1;
      }
    }
  }

  lemma NoSlotsBelowZero(E: set<string>, p: seq<int>)
    ensures SlotsBelow(E, p, 0) == {}
  {
  }

  /** A slot without a node holds no string. */
  lemma EmptySlot(v: View, q: seq<int>, i: int)
    requires v.capacity >= 1 && Shaped(v, []) && (forall e :: e in v.elements ==> InAlphabet(e, v.capacity - 1))
    requires !(0 <= i < v.capacity && q + [i] in v.nodeAt) && 0 <= i
    ensures Sub(v.elements, q + [i]) == {}
  {
    forall e | e in Sub(v.elements, q + [i]) ensures i < v.capacity {
      SlotDigitBound(v.capacity, v.elements, q, i, e);
    }
  }

  /** A digit on the path of a string in the alphabet is below the capacity. */
  lemma SlotDigitBound(capacity: int, E: set<string>, q: seq<int>, i: int, e: string)
    requires capacity >= 1 && e in Sub(E, q + [i]) && InAlphabet(e, capacity - 1)
    ensures i < capacity
  {
    DigitsProper(e, capacity);
    assert Digits(e)[|q|] == (q + [i])[|q|];
  }

  /** A path with a node is no longer than the longest stored digit sequence. */
  lemma PathBound(ns: seq<Node>, v: View, p: seq<int>)
    requires Tree(ns, v, []) && p in v.nodeAt
    ensures |p| <= MaxDigits(v.elements)
  {
    if p != [] {
      var e :| e in Sub(v.elements, p);
    }
  }

  /** All slots together hold the whole subtree. */
  lemma SlotsAll(v: View, q: seq<int>)
    requires v.capacity >= 1 && Shaped(v, []) && (forall e :: e in v.elements ==> InAlphabet(e, v.capacity - 1))
    requires !EndsString(q)
    ensures SlotsBelow(v.elements, q, v.capacity) == Sub(v.elements, q)
  {
    forall e | e in Sub(v.elements, q) ensures e in SlotsBelow(v.elements, q, v.capacity) {
      InnerChild(v, [], q, e);
    }
  }
}
