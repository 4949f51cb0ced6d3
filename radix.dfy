/**
 * The radix tree's search: a descent that may stop early at a leaf standing for a whole
 * compressed branch, followed by a digit-by-digit comparison with that leaf's string.
 */
module Radix {
  import opened Digitizer
  import opened Nodes
  import opened Search

  /** The letters a to z. */
  const Letters := 26

  function Min(a: int, b: int): (m: int)
    ensures m <= a && m <= b && (m == a || m == b)
  {
    if a <= b then a else b
  }

  /** The child of node `n` in slot `d`: Nil for an empty slot or a digit outside the slots. */
  function Child(ns: seq<Node>, n: int, d: int): (c: int)
    requires WellFormed(ns) && 0 <= n < |ns|
    ensures Ref(ns, c)
  {
    if 0 <= d < |ns[n].children| then ns[n].children[d] else Nil
  }

  /**
   * The node reached from `n` by following the digits `p` through internal nodes: Nil once a
   * slot is empty or a leaf would have to be passed.
   */
  ghost function Follow(ns: seq<Node>, n: int, p: seq<int>): (m: int)
    requires WellFormed(ns) && Ref(ns, n)
    ensures Ref(ns, m)
    decreases |p|
  {
    if p == [] then n
    else
      var m := Follow(ns, n, p[..|p| - 1]);
      if m == Nil || ns[m].kind.Leaf? then Nil else Child(ns, m, p[|p| - 1])
  }

  /** A leaf reached by the digits `p` holds a string whose digits start with `p`: a compressed branch. */
  ghost predicate LeavesOnPaths(ns: seq<Node>, root: int)
    requires WellFormed(ns) && Ref(ns, root)
  {
    forall p :: Follow(ns, root, p) != Nil && ns[Follow(ns, root, p)].kind.Leaf? ==>
      IsPrefix(p, Digits(ns[Follow(ns, root, p)].element))
  }

  /**
   * What `checkMatchFromLeaf` concludes from the digits `a` of the target and `b` of the leaf,
   * starting at `k` and stopping at `m`: equal digits from `k` up to `m`, then the first
   * difference decides (a smaller target digit 0 marking the end of the target), or, when the
   * shorter sequence is used up, which of the two ran out.
   */
  ghost predicate Compared(a: seq<int>, b: seq<int>, k: int, m: int, r: SearchResult)
  {
    var stop := Min(|a|, |b|);
    && 0 <= k
    && (k <= stop ==> k <= m <= stop)
    && (k > stop ==> m == k)
    && (forall i :: k <= i < m && i < stop ==> a[i] == b[i])
    && (m < stop ==> a[m] != b[m] && r == (if a[m] < b[m] then (if a[m] == 0 then Prefix else Less) else Greater))
    && (m >= stop ==> r == (if m == |a| then (if m == |b| then Matched else Prefix) else Extension))
  }

  /** Up to case, `x` is a proper prefix of `l`. */
  ghost predicate ProperPrefix(x: string, l: string)
  {
    |x| < |l| && LowerString(l)[..|x|] == LowerString(x)
  }

  /** The result of comparing `x` with the leaf string `l`, as the order of their digits decides it. */
  ghost predicate Ordered(x: string, l: string, r: SearchResult)
  {
    && (r == Matched <==> LowerString(x) == LowerString(l))
    && (r == Prefix <==> ProperPrefix(x, l))
    && (r == Less <==> Before(x, l) && !ProperPrefix(x, l))
    && (r == Greater <==> Before(l, x))
  }

  /**
   * For strings of letters whose digits agree before `k`, the comparison from `k` is the order of
   * the strings: Matched for equal strings, Prefix for a proper prefix, Less and Greater for the
   * digit order, and never Extension.
   */
  lemma ComparedOrders(x: string, l: string, k: int, m: int, r: SearchResult)
    requires InAlphabet(x, Letters) && InAlphabet(l, Letters)
    requires 0 <= k <= |Digits(x)| && k <= |Digits(l)| && Digits(x)[..k] == Digits(l)[..k]
    requires Compared(Digits(x), Digits(l), k, m, r)
    ensures Ordered(x, l, r) && r != Extension
  {
    var a, b := Digits(x), Digits(l);
    var stop := Min(|a|, |b|);
    assert a[..m] == b[..m] by {
      forall i | 0 <= i < m ensures a[i] == b[i] {
        if i < k {
          assert a[i] == a[..k][i] && b[i] == b[..k][i];
        }
      }
    }
    DigitsEqualIffSameLower(Letters, x, l);
    if m < stop {
      if ProperPrefix(x, l) {
        ProperPrefixDiverges(Letters, x, l);
      }
      DigitsInRange(Letters, x, m);
      DigitsInRange(Letters, l, m);
      if a[m] < b[m] {
        assert LessAt(a, b, m);
        if a[m] == 0 {
          DigitPrefixAgree(Letters, x, l, |x|);
          assert LowerString(x)[..|x|] == LowerString(x);
        }
        if Before(l, x) {
          BeforeTransitive(x, l, x);
          BeforeIrreflexive(x);
        }
      } else {
        assert LessAt(b, a, m);
        if Before(x, l) {
          BeforeTransitive(l, x, l);
          BeforeIrreflexive(l);
        }
      }
    } else {
      if |a| <= |b| {
        assert IsPrefix(a, b);
        PrefixFree(Letters, x, l);
      } else {
        assert IsPrefix(b, a);
        PrefixFree(Letters, l, x);
      }
      BeforeIrreflexive(x);
    }
  }

  class RadixTree {
    var heap: Arena
    var root: int
    var size: int
    var digitizer: StringDigitizer

    ghost predicate Valid()
      reads this, heap
    {
      && WellFormed(heap.nodes) && Ref(heap.nodes, root)
      && 0 <= size && (size != 0 ==> root != Nil)
      && LeavesOnPaths(heap.nodes, root)
    }

    /** An empty radix tree over an alphabet of `alphabetSize` letters. */
    constructor (alphabetSize: int)
      ensures Valid() && size == 0 && root == Nil && digitizer == NewStringDigitizer(alphabetSize)
    {
      heap := new Arena();
      root := Nil;
      size := 0;
      digitizer := NewStringDigitizer(alphabetSize);
    }

    predicate IsEmpty()
      reads this
    {
      size == 0
    }

    method PrepareSearch(sctx: SearchContext)
      modifies sctx
      ensures sctx.pointer == root && sctx.digitizer == digitizer && sctx.branchPosition == 0
      ensures sctx.numMatches == old(sctx.numMatches)
    {
      sctx.pointer := root;
      sctx.digitizer := digitizer;
      sctx.branchPosition := 0;
      sctx.path := [];
    }

    /** The search stands `branchPosition` digits down the path of `x`, at a node reached through internal nodes. */
    ghost predicate DescendedBy(x: string, sctx: SearchContext)
      reads this, heap, sctx
      requires Valid()
    {
      && 0 <= sctx.branchPosition <= |Digits(x)| && sctx.pointer != Nil
      && sctx.pointer == Follow(heap.nodes, root, Digits(x)[..sctx.branchPosition])
    }

    /**
     * One step of the descent: to the child in the slot of the next digit of `x`, or, when that
     * slot is empty or outside the node, ChildNotFound and no move.
     */
    method DescendTo(sctx: SearchContext, x: string) returns (r: int)
      requires WellFormed(heap.nodes) && 0 <= sctx.pointer < |heap.nodes| && 0 <= sctx.branchPosition
      modifies sctx
      ensures sctx.digitizer == old(sctx.digitizer) && sctx.numMatches == old(sctx.numMatches)
      ensures var c := Child(heap.nodes, old(sctx.pointer), old(sctx.digitizer).DigitOf(x, old(sctx.branchPosition)));
              && (c == Nil ==> r == ChildNotFound && sctx.pointer == old(sctx.pointer)
                                && sctx.branchPosition == old(sctx.branchPosition))
              && (c != Nil ==> r != ChildNotFound && sctx.pointer == c
                                && sctx.branchPosition == old(sctx.branchPosition) + 1)
    {
      var index := sctx.digitizer.DigitOf(x, sctx.branchPosition);
      var child := heap.ChildWithIndexOf(sctx.pointer, index);
      if child.Failure? || child.value == Nil {
        return ChildNotFound;
      }
      sctx.branchPosition := sctx.ChildBranchPosition(index);
      sctx.pointer := child.value;
      return index;
    }

    /**
     * `find`: descends by the digits of `x` until they are used up, a leaf is reached, or a slot
     * is empty. Used-up digits give Matched at a leaf and Prefix elsewhere; a leaf reached early
     * is compared with `x` from the digits consumed on.
     */
    method Find(x: string, sctx: SearchContext) returns (r: SearchResult)
      requires Valid()
      modifies sctx
      ensures sctx.digitizer == digitizer
      ensures size == 0 ==> r == Unmatched && sctx.pointer == root && sctx.branchPosition == 0
      ensures size != 0 ==> DescendedBy(x, sctx)
      ensures size != 0 ==>
                (r == Unmatched <==>
                   && sctx.branchPosition < |Digits(x)| && heap.nodes[sctx.pointer].kind.Internal?
                   && Child(heap.nodes, sctx.pointer, Digits(x)[sctx.branchPosition]) == Nil)
      ensures size != 0 && sctx.branchPosition == |Digits(x)| ==>
                (r == Matched <==> heap.nodes[sctx.pointer].kind.Leaf?) && (r == Prefix <==> heap.nodes[sctx.pointer].kind.Internal?)
      ensures size != 0 && sctx.branchPosition < |Digits(x)| && heap.nodes[sctx.pointer].kind.Leaf? ==>
                Compared(Digits(x), Digits(heap.nodes[sctx.pointer].element), sctx.branchPosition, sctx.numMatches, r)
      ensures size != 0 && heap.nodes[sctx.pointer].kind.Leaf? &&
              InAlphabet(x, Letters) && InAlphabet(heap.nodes[sctx.pointer].element, Letters) ==>
                Ordered(x, heap.nodes[sctx.pointer].element, r)
    {
      PrepareSearch(sctx);
      if IsEmpty() {
        return Unmatched;
      }
      var numDigitsInElement := digitizer.NumDigitsOf(x);
      while sctx.branchPosition < numDigitsInElement && !sctx.AtLeaf(heap)
        invariant sctx.digitizer == digitizer
        invariant DescendedBy(x, sctx)
        decreases numDigitsInElement - sctx.branchPosition
      {
        ghost var p, bp := sctx.pointer, sctx.branchPosition;
        var d := DescendTo(sctx, x);
        if d == ChildNotFound {
          return Unmatched;
        }
        assert Digits(x)[..bp + 1][..bp] == Digits(x)[..bp];
      }
      if sctx.branchPosition == numDigitsInElement {
        if sctx.AtLeaf(heap) {
          LeafAtFullPath(x, sctx);
          return Matched;
        } else {
          return Prefix;
        }
      } else {
        sctx.numMatches := sctx.branchPosition;
        r := CheckMatchFromLeaf(x, sctx);
        LeafAgrees(x, sctx);
        if InAlphabet(x, Letters) && InAlphabet(heap.nodes[sctx.pointer].element, Letters) {
          ComparedOrders(x, heap.nodes[sctx.pointer].element, sctx.branchPosition, sctx.numMatches, r);
        }
      }
    }

    /** A leaf at the end of the path of `x` holds `x` up to case, when both are strings of letters. */
    lemma LeafAtFullPath(x: string, sctx: SearchContext)
      requires Valid() && DescendedBy(x, sctx) && sctx.branchPosition == |Digits(x)|
      requires heap.nodes[sctx.pointer].kind.Leaf?
      ensures InAlphabet(x, Letters) && InAlphabet(heap.nodes[sctx.pointer].element, Letters) ==>
                Ordered(x, heap.nodes[sctx.pointer].element, Matched)
    {
      var l := heap.nodes[sctx.pointer].element;
      assert Digits(x)[..sctx.branchPosition] == Digits(x);
      assert IsPrefix(Digits(x), Digits(l));
      if InAlphabet(x, Letters) && InAlphabet(l, Letters) {
        PrefixFree(Letters, x, l);
        DigitsEqualIffSameLower(Letters, x, l);
        BeforeIrreflexive(x);
      }
    }

    /** The leaf the descent stops at agrees with `x` on the digits consumed. */
    lemma LeafAgrees(x: string, sctx: SearchContext)
      requires Valid() && DescendedBy(x, sctx) && heap.nodes[sctx.pointer].kind.Leaf?
      ensures var b := Digits(heap.nodes[sctx.pointer].element);
              sctx.branchPosition <= |b| && Digits(x)[..sctx.branchPosition] == b[..sctx.branchPosition]
    {
      assert IsPrefix(Digits(x)[..sctx.branchPosition], Digits(heap.nodes[sctx.pointer].element));
    }

    /**
     * `checkMatchFromLeaf`: compares the digits of `x` with those of the leaf's string from
     * `numMatches` on, one by one, up to the shorter digit count.
     */
    method CheckMatchFromLeaf(x: string, sctx: SearchContext) returns (r: SearchResult)
      requires Valid() && 0 <= sctx.pointer < |heap.nodes| && heap.nodes[sctx.pointer].kind.Leaf?
      requires 0 <= sctx.numMatches
      modifies sctx
      ensures sctx.pointer == old(sctx.pointer) && sctx.branchPosition == old(sctx.branchPosition)
      ensures sctx.digitizer == old(sctx.digitizer)
      ensures Compared(Digits(x), Digits(heap.nodes[sctx.pointer].element), old(sctx.numMatches), sctx.numMatches, r)
    {
      var leafData := heap.nodes[sctx.pointer].element;
      var stop := Min(digitizer.NumDigitsOf(x), digitizer.NumDigitsOf(leafData));
      ghost var a, b, k := Digits(x), Digits(leafData), sctx.numMatches;
      while sctx.numMatches < stop
        invariant sctx.pointer == old(sctx.pointer) && sctx.branchPosition == old(sctx.branchPosition)
        invariant sctx.digitizer == old(sctx.digitizer)
        invariant k <= stop ==> k <= sctx.numMatches <= stop
        invariant k > stop ==> sctx.numMatches == k
        invariant forall i :: k <= i < sctx.numMatches && i < stop ==> a[i] == b[i]
        decreases stop - sctx.numMatches
      {
        var targetDigit := digitizer.DigitOf(x, sctx.numMatches);
        var leafDigit := digitizer.DigitOf(leafData, sctx.numMatches);
        var comparison := targetDigit - leafDigit;
        if comparison < 0 {
          if digitizer.IsPrefixFree() && targetDigit == 0 {
            return Prefix;
          } else {
            return Less;
          }
        } else if comparison > 0 {
          return Greater;
        } else {
          sctx.numMatches := sctx.numMatches + 1;
        }
      }
      if sctx.numMatches == digitizer.NumDigitsOf(x) {
        if sctx.numMatches == digitizer.NumDigitsOf(leafData) {
          return Matched;
        } else {
          return Prefix;
        }
      } else {
        return Extension;
      }
    }
  }
}
