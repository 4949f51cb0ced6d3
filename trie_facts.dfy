/**
 * What the trie's state means, over plain values: the list of leaves holds the stored strings in
 * sorted order, and each step of an insertion (a path grown, a leaf hung, a leaf spliced into the
 * list) keeps the tree and the list consistent.
 */
module TrieFacts {
  import opened Digitizer
  import opened Nodes
  import opened TrieShape
  import opened Search
  import opened LeafList
  import opened ShapeEdits

  /** The stored strings that come after `x`. */
  ghost function Above(E: set<string>, x: string): set<string>
  {
    set e | e in E && Before(x, e)
  }

  ghost predicate Greatest(S: set<string>, m: string)
  {
    m in S && forall e :: e in S ==> e == m || Before(e, m)
  }

  ghost predicate Least(S: set<string>, m: string)
  {
    m in S && forall e :: e in S ==> e == m || Before(m, e)
  }

  /** The stored strings that start with `prefix`, up to case: the digitizer does not see case. */
  ghost function WithPrefix(E: set<string>, prefix: string): set<string>
  {
    set e | e in E && |prefix| <= |e| && LowerString(e)[..|prefix|] == LowerString(prefix)
  }

  /**
   * How many strings at the front of `values` can be added one after another to a trie holding
   * `E`: the count stops at the first string already there up to case.
   */
  ghost function AddablePrefix(E: set<string>, values: seq<string>): (k: nat)
    ensures k <= |values|
    decreases |values|
  {
    if values == [] || Matching(E, values[0]) != {} then 0 else 1 + AddablePrefix(E + {values[0]}, values[1..])
  }

  /** The strings of a sequence, as a set. */
  ghost function Members(s: seq<string>): set<string>
  {
    set v | v in s
  }

  lemma MembersSnoc(s: seq<string>, x: string)
    ensures Members(s + [x]) == Members(s) + {x}
  {
    assert forall v :: v in s + [x] <==> v in s || v == x;
  }

  lemma MembersCons(x: string, s: seq<string>)
    ensures Members([x] + s) == {x} + Members(s)
  {
    assert forall v :: v in [x] + s <==> v == x || v in s;
  }

  /** The strings before position `AddablePrefix(E, values)` are all new; the one at it is not. */
  lemma {:induction false} AddablePrefixFirstRepeat(E: set<string>, values: seq<string>)
    ensures var k := AddablePrefix(E, values);
            && (forall i :: 0 <= i < k ==> Matching(E + Members(values[..i]), values[i]) == {})
            && (k < |values| ==> Matching(E + Members(values[..k]), values[k]) != {})
    decreases |values|
  {
    if values != [] && Matching(E, values[0]) == {} {
      var t := values[1..];
      AddablePrefixFirstRepeat(E + {values[0]}, t);
      var k := AddablePrefix(E, values);
      forall i | 0 < i <= k && i <= |values|
        ensures E + Members(values[..i]) == E + {values[0]} + Members(t[..i - 1])
      {
        assert values[..i] == [values[0]] + t[..i - 1];
        MembersCons(values[0], t[..i - 1]);
      }
      assert values[..0] == [];
    }
  }

  /** None of the first `i` strings of `values` was present when its turn came. */
  ghost predicate AllNew(E: set<string>, values: seq<string>, i: int)
  {
    0 <= i <= |values| && forall k :: 0 <= k < i ==> Matching(E + Members(values[..k]), values[k]) == {}
  }

  lemma MembersEmpty(E0: set<string>, values: seq<string>)
    ensures E0 + Members(values[..0]) == E0 && AllNew(E0, values, 0)
  {
    assert values[..0] == [];
  }

  /** Adding a new `values[i]` to the strings present extends both facts by one position. */
  lemma MembersStep(E0: set<string>, values: seq<string>, i: int, E: set<string>, E': set<string>)
    requires AllNew(E0, values, i) && i < |values| && E == E0 + Members(values[..i])
    requires Matching(E, values[i]) == {} && E' == E + {values[i]}
    ensures E' == E0 + Members(values[..i + 1]) && AllNew(E0, values, i + 1)
  {
    assert values[..i + 1] == values[..i] + [values[i]];
    MembersSnoc(values[..i], values[i]);
  }

  /** `AddablePrefix` is the position of the first string already present, or the length. */
  lemma FirstRepeatIsAddablePrefix(E: set<string>, values: seq<string>, k: int)
    requires AllNew(E, values, k)
    requires k < |values| ==> Matching(E + Members(values[..k]), values[k]) != {}
    ensures AddablePrefix(E, values) == k
  {
    AddablePrefixFirstRepeat(E, values);
  }

  /** The strings held by the leaves of `order`, in list order. */
  ghost function ContentsOf(ns: seq<Node>, order: seq<int>): (s: seq<string>)
    requires forall k :: 0 <= k < |order| ==> 0 <= order[k] < |ns|
    ensures |s| == |order| && forall k :: 0 <= k < |order| ==> s[k] == ns[order[k]].element
  {
    seq(|order|, k requires 0 <= k < |order| => ns[order[k]].element)
  }

  /** The list holds the stored strings in sorted order, each at the leaf the tree has for it. */
  ghost predicate Stored(ns: seq<Node>, order: seq<int>, E: set<string>, nodeAt: map<seq<int>, int>)
  {
    && (forall k :: 0 <= k < |order| ==> 0 <= order[k] < |ns|)
    && StrictlySorted(ContentsOf(ns, order))
    && Members(ContentsOf(ns, order)) == E
    && forall k :: 0 <= k < |order| ==>
         Digits(ns[order[k]].element) in nodeAt && nodeAt[Digits(ns[order[k]].element)] == order[k]
  }

  // ---------------------------------------------------------------------------------------
  // The tree
  // ---------------------------------------------------------------------------------------

  /**
   * Where the new leaf `l` of `x` goes in the list: right after `after`, the leaf of the greatest
   * string before `x` when `found`, else the head sentinel. Splicing it in there keeps the list
   * linked and sorted, the tombstones resolving and the tree intact.
   */
  lemma SpliceSite(ns2: seq<Node>, head: int, tail: int, cap: int, order0: seq<int>, rank: map<int, int>, clock: int,
                   E0: set<string>, na: map<seq<int>, int>, x: string, l: int, found: bool, after: int)
    returns (j: int, order': seq<int>)
    requires WellFormed(ns2) && cap >= 1 && clock >= 0 && Matching(E0, x) == {} && InAlphabet(x, cap - 1)
    requires Linked(ns2, head, tail, order0) && Tombstones(ns2, order0, tail, rank, clock)
    requires Stored(ns2, order0, E0, na) && Tree(ns2, View(cap, E0 + {x}, na), [])
    requires 0 <= l < |ns2| && ns2[l].kind == Leaf(Nil, Nil, false, false) && ns2[l].element == x
    requires Digits(x) in na && na[Digits(x)] == l
    requires l != head && l != tail && l !in order0 && l !in rank
    requires found ==> && 0 <= after < |ns2| && Greatest(Below(E0, x), ns2[after].element)
                       && Digits(ns2[after].element) in na && na[Digits(ns2[after].element)] == after
    requires !found ==> Below(E0, x) == {} && after == head
    ensures -1 <= j < |order0| && after == (if j < 0 then head else order0[j])
    ensures |order'| == |order0| + 1 && order'[j + 1] == l
    ensures && 0 <= after < |ns2| && ns2[after].kind.Leaf?
            && 0 <= ns2[after].kind.next < |ns2| && ns2[ns2[after].kind.next].kind.Leaf?
    ensures var ns3 := Spliced(ns2, l, after);
            && WellFormed(ns3) && Linked(ns3, head, tail, order') && Tombstones(ns3, order', tail, rank, clock)
            && Stored(ns3, order', E0 + {x}, na) && Tree(ns3, View(cap, E0 + {x}, na), [])
  {
    j, order' := SpliceOrder(ns2, head, tail, cap, order0, E0, na, x, l, found, after);
    SpliceKeeps(ns2, head, tail, cap, order0, order', rank, clock, E0, na, j, l, x, after);
  }

  /** The position in the list where the new leaf `l` of `x` goes, and the list with it there. */
  lemma SpliceOrder(ns2: seq<Node>, head: int, tail: int, cap: int, order0: seq<int>, E0: set<string>,
                   na: map<seq<int>, int>, x: string, l: int, found: bool, after: int)
    returns (j: int, order': seq<int>)
    requires cap >= 1 && Matching(E0, x) == {} && InAlphabet(x, cap - 1) && forall e :: e in E0 + {x} ==> InAlphabet(e, cap - 1)
    requires Linked(ns2, head, tail, order0) && Stored(ns2, order0, E0, na)
    requires 0 <= l < |ns2| && l != head && l != tail && l !in order0
    requires found ==> && 0 <= after < |ns2| && Greatest(Below(E0, x), ns2[after].element)
                       && Digits(ns2[after].element) in na && na[Digits(ns2[after].element)] == after
    requires !found ==> Below(E0, x) == {} && after == head
    ensures -1 <= j < |order0| && after == (if j < 0 then head else order0[j])
    ensures j >= 0 ==> Before(ContentsOf(ns2, order0)[j], x)
    ensures j + 1 < |order0| ==> Before(x, ContentsOf(ns2, order0)[j + 1])
    ensures order' == order0[..j + 1] + [l] + order0[j + 1..] && |order'| == |order0| + 1 && order'[j + 1] == l
    ensures && 0 <= after < |ns2| && ns2[after].kind.Leaf? && ns2[after].kind.next == Succ(order0, tail, j)
            && 0 <= ns2[after].kind.next < |ns2| && ns2[ns2[after].kind.next].kind.Leaf?
            && l != after && l != ns2[after].kind.next && after != ns2[after].kind.next
  {
    assert forall e :: e in E0 ==> InAlphabet(e, cap - 1) by {
      forall e | e in E0
        ensures InAlphabet(e, cap - 1)
      {
        assert e in E0 + {x};
      }
    }
    j := PredecessorIndex(ns2, order0, E0, na, cap - 1, x, found, after);
    InsertSite(ns2, head, tail, order0, j, l);
    order' := order0[..j + 1] + [l] + order0[j + 1..];
  }

  /** Splicing the new leaf `l` of `x` into the list after position `j` completes an insertion. */
  lemma SpliceKeeps(ns2: seq<Node>, head: int, tail: int, cap: int, order0: seq<int>, order': seq<int>,
                    rank: map<int, int>, clock: int, E0: set<string>, na: map<seq<int>, int>, j: int, l: int, x: string,
                    other: int)
    requires WellFormed(ns2) && cap >= 1 && clock >= 0
    requires Linked(ns2, head, tail, order0) && Tombstones(ns2, order0, tail, rank, clock)
    requires Stored(ns2, order0, E0, na) && Tree(ns2, View(cap, E0 + {x}, na), [])
    requires 0 <= l < |ns2| && ns2[l].kind == Leaf(Nil, Nil, false, false) && ns2[l].element == x
    requires Digits(x) in na && na[Digits(x)] == l
    requires l != head && l != tail && l !in order0 && l !in rank && -1 <= j < |order0|
    requires j >= 0 ==> Before(ContentsOf(ns2, order0)[j], x)
    requires j + 1 < |order0| ==> Before(x, ContentsOf(ns2, order0)[j + 1])
    requires order' == order0[..j + 1] + [l] + order0[j + 1..]
    requires other == if j < 0 then head else order0[j]
    requires 0 <= other < |ns2| && ns2[other].kind.Leaf? && ns2[other].kind.next == Succ(order0, tail, j)
    requires 0 <= ns2[other].kind.next < |ns2| && ns2[ns2[other].kind.next].kind.Leaf?
    requires l != other && l != ns2[other].kind.next && other != ns2[other].kind.next
    ensures var ns3 := Spliced(ns2, l, other);
            && WellFormed(ns3) && Linked(ns3, head, tail, order') && Tombstones(ns3, order', tail, rank, clock)
            && Stored(ns3, order', E0 + {x}, na) && Tree(ns3, View(cap, E0 + {x}, na), [])
  {
    var ns3 := Spliced(ns2, l, other);
    SplicedSkeleton(ns2, l, other);
    TreeFrame(ns2, ns3, View(cap, E0 + {x}, na), []);
    LinkedInsert(ns2, head, tail, order0, j, l);
    TombstonesInsert(ns2, head, tail, order0, rank, clock, j, l);
    StoredInsert(ns2, ns3, order0, order', E0, na, x, l, j);
  }

  /** A search for `x` at an internal node on its path whose slot for the next digit is empty. */
  lemma SearchStuck(sctx: SearchContext, heap: Arena, v: View, x: string)
    requires Tree(heap.nodes, v, []) && sctx.At(v) && heap.nodes[sctx.pointer].kind.Internal?
    requires IsPrefix(sctx.path, Digits(x)) && |sctx.path| < |Digits(x)|
    requires sctx.path + [Digits(x)[|sctx.path|]] !in v.nodeAt
    ensures Matching(v.elements, x) == {} && sctx.Retracing(heap, v, x) && Digits(x)[..|sctx.path| + 1] !in v.nodeAt
  {
    EmptySlotReached(heap.nodes, v, sctx.path, x);
    RetracingFrom(sctx, heap, v, x);
  }

  lemma RetracingFrom(sctx: SearchContext, heap: Arena, v: View, x: string)
    requires sctx.At(v) && Ref(heap.nodes, sctx.pointer) && IsPrefix(sctx.path, Digits(x))
    requires sctx.AtLeaf(heap) ==> sctx.path == Digits(x)
    requires !sctx.AtLeaf(heap) ==> |sctx.path| < |Digits(x)| && Sub(v.elements, Digits(x)[..|sctx.path| + 1]) == {}
    ensures sctx.Retracing(heap, v, x)
  {
  }

  /**
   * The greatest string of a subtree holding only strings before `x`, where every other string
   * before `x` lies to the left of that subtree, is the greatest string before `x`.
   */
  lemma PredecessorFound(E: set<string>, x: string, p: seq<int>, m: string)
    requires m in Sub(E, p) && Sub(E, p) <= Below(E, x)
    requires forall e :: e in Sub(E, p) ==> e == m || Before(e, m)
    requires forall e :: e in Below(E, x) && e !in Sub(E, p) ==> LexLess(Digits(e), p)
    ensures Greatest(Below(E, x), m)
  {
    forall e | e in Below(E, x) ensures e == m || Before(e, m) {
      if e !in Sub(E, p) {
        SubBeforeExtension(E, e, p, p, m);
      }
    }
  }

  /** The path of a string ends at a leaf, so an internal node's path is not it. */
  lemma InnerNotKey(ns: seq<Node>, v: View, p: seq<int>, x: string)
    requires Tree(ns, v, []) && p in v.nodeAt && ns[v.nodeAt[p]].kind.Internal?
    ensures p != Digits(x)
  {
    assert NodeOk(ns, v, [], p);
  }

  /** A search for `x` that meets an empty slot on the path of `x`: `x` is not stored. */
  lemma EmptySlotReached(ns: seq<Node>, v: View, p: seq<int>, x: string)
    requires Tree(ns, v, []) && IsPrefix(p, Digits(x)) && |p| < |Digits(x)|
    requires p + [Digits(x)[|p|]] !in v.nodeAt
    ensures Digits(x)[..|p| + 1] !in v.nodeAt && Sub(v.elements, Digits(x)[..|p| + 1]) == {}
    ensures Matching(v.elements, x) == {}
  {
    assert Digits(x)[..|p| + 1] == p + [Digits(x)[|p|]];
    MatchingInSub(v.elements, x);
    SubMonotone(v.elements, Digits(x)[..|p| + 1], Digits(x));
  }

  /** A search for `x` that reaches a leaf on the path of `x` has found `x`. */
  lemma LeafReached(ns: seq<Node>, v: View, p: seq<int>, x: string)
    requires Tree(ns, v, []) && InAlphabet(x, v.capacity - 1) && IsPrefix(p, Digits(x))
    requires p in v.nodeAt && ns[v.nodeAt[p]].kind.Leaf?
    ensures var m := ns[v.nodeAt[p]].element;
            p == Digits(x) && Digits(m) == Digits(x) && m in v.elements && Matching(v.elements, x) == {m}
  {
    assert NodeOk(ns, v, [], p);
    DigitsProper(x, v.capacity);
    EndsStringPrefix(p, Digits(x), v.capacity);
    LeafSub(ns, v, [], p);
    MatchingSub(v.elements, x, v.capacity);
  }

  /** Every prefix of a stored string's digit sequence has a node. */
  lemma StoredPrefixPresent(ns: seq<Node>, v: View, x: string, k: int)
    requires Tree(ns, v, []) && 0 <= k <= |Digits(x)|
    ensures x in v.elements ==> Digits(x)[..k] in v.nodeAt
  {
    if x in v.elements {
      KeyLeaf(ns, v, [], x);
      PrefixClosed(ns, v, [], Digits(x)[..k], Digits(x));
    }
  }

  // ---------------------------------------------------------------------------------------
  // Building the path of a new string
  // ---------------------------------------------------------------------------------------

  /** The leaf `insert` allocates for `x`: no links yet, no slots, the element set. */
  function LeafOf(x: string): (n: Node)
    ensures n.kind.Leaf? && n.element == x && n.parent == Nil && !n.isRoot && n.children == []
  {
    EmptyNode(0).(kind := Leaf(Nil, Nil, false, false), element := x)
  }

  lemma SameLinksRefl(ns: seq<Node>)
    ensures SameLinks(ns, ns)
  {
  }

  lemma SameLinksTrans(a: seq<Node>, b: seq<Node>, c: seq<Node>)
    requires SameLinks(a, b) && SameLinks(b, c)
    ensures SameLinks(a, c)
  {
    forall i | 0 <= i < |a| ensures c[i].kind == a[i].kind && c[i].element == a[i].element {
      assert c[i].kind == b[i].kind;
    }
  }

  /**
   * Where `addNode` starts: a failed search for `x` stopped at the internal node `ptr` at path `p`
   * on the path of `x`, whose slot for the next digit is empty; or there is no root yet.
   */
  ghost predicate LandingOn(ns: seq<Node>, v: View, root: int, ptr: int, p: seq<int>, bp: int, x: string)
  {
    && WellFormed(ns) && v.capacity >= 1 && InAlphabet(x, v.capacity - 1) && Matching(v.elements, x) == {}
    && (root == Nil ==> v.elements == {} && v.nodeAt == map[] && ptr == Nil && p == [] && bp == 0)
    && (root != Nil ==>
          && Tree(ns, v, []) && [] in v.nodeAt && v.nodeAt[[]] == root
          && p in v.nodeAt && ptr == v.nodeAt[p] && bp == |p| && ns[ptr].kind.Internal?
          && IsPrefix(p, Digits(x)) && |p| < |Digits(x)| && Digits(x)[..|p| + 1] !in v.nodeAt)
  }

  /**
   * While `addNode` builds the path of `x`: `ptr` is the internal node at the end `p` of the path
   * under construction, the next slot on the path of `x` is empty, and the leaf `l` of `x` waits.
   */
  ghost predicate GrowingOn(ns: seq<Node>, v: View, p: seq<int>, ptr: int, bp: int, x: string, l: int)
  {
    && InAlphabet(x, v.capacity - 1)
    && Tree(ns, v, p) && p in v.nodeAt && ptr == v.nodeAt[p] && bp == |p| && ns[ptr].kind.Internal?
    && IsPrefix(p, Digits(x)) && |p| < |Digits(x)| && Digits(x)[..|p| + 1] !in v.nodeAt
    && 0 <= l < |ns| && Fits(ns[l], v, Digits(x)) && ns[l].element == x
    && forall q :: q in v.nodeAt ==> v.nodeAt[q] != l
  }

  lemma LandingNil(ns: seq<Node>, v: View, root: int, ptr: int, p: seq<int>, bp: int, x: string)
    requires LandingOn(ns, v, root, ptr, p, bp, x)
    ensures ptr == Nil <==> root == Nil
  {
  }

  /** A new root starts the path of `x`. */
  lemma RootGrows(ns: seq<Node>, capacity: int, x: string, l: int)
    requires WellFormed(ns) && capacity >= 1 && InAlphabet(x, capacity - 1)
    requires 0 <= l < |ns| && ns[l] == LeafOf(x)
    ensures var ns' := ns + [EmptyNode(capacity).(isRoot := true)];
            GrowingOn(ns', View(capacity, {}, map[[] := |ns|]), [], |ns|, 0, x, l) && SameLinks(ns, ns')
  {
    DigitsProper(x, capacity);
    TreeRoot(ns, capacity);
    var ns' := ns + [EmptyNode(capacity).(isRoot := true)];
    assert ns'[l] == ns[l];
    assert NodeOk(ns', View(capacity, {}, map[[] := |ns|]), [], []);
  }

  /** The node a failed search stopped at starts the path of `x`. */
  lemma LandedGrows(ns: seq<Node>, v: View, root: int, ptr: int, p: seq<int>, bp: int, x: string, l: int)
    requires LandingOn(ns, v, root, ptr, p, bp, x) && root != Nil
    requires 0 <= l < |ns| && ns[l] == LeafOf(x) && forall q :: q in v.nodeAt ==> v.nodeAt[q] != l
    ensures GrowingOn(ns, v, p, ptr, bp, x, l)
  {
    DigitsProper(x, v.capacity);
    TreeWiden(ns, v, p);
    SubMonotone(v.elements, Digits(x)[..|p| + 1], Digits(x));
  }

  /**
   * One new internal node for digit `Digits(x)[|q|]` below the internal end `q` of the path under
   * construction: the arena after allocating it and attaching it has the extended path.
   */
  lemma GrowNode(ns: seq<Node>, v: View, q: seq<int>, ptr: int, bp: int, x: string, l: int)
    requires GrowingOn(ns, v, q, ptr, bp, x, l) && |q| < |Digits(x)| - 1
    ensures var d := Digits(x)[|q|];
            && bp == |q| && 0 <= ptr < |ns| && 0 <= d < |ns[ptr].children| && ns[ptr].children[d] == Nil
            && q + [d] !in v.nodeAt
            && var ns2 := Attach(ns + [EmptyNode(v.capacity)], ptr, d, |ns|);
               && GrowingOn(ns2, View(v.capacity, v.elements, v.nodeAt[q + [d] := |ns|]), q + [d], |ns|, bp + 1, x, l)
               && SameLinks(ns, ns2)
  {
    var dx := Digits(x);
    var d := dx[|q|];
    var n := EmptyNode(v.capacity);
    var ns1 := ns + [n];
    var id := |ns|;
    DigitsProper(x, v.capacity);
    assert dx[..|q| + 1] == q + [d];
    assert d != 0;
    TreeAppend(ns, v, q, n);
    assert (forall p :: p in v.nodeAt ==> v.nodeAt[p] != id);
    assert ns1[l] == ns[l] && ns1[ptr] == ns[ptr];
    TreeGrow(ns1, v, q, d, id);
    var ns2 := Attach(ns1, ptr, d, id);
    var v' := View(v.capacity, v.elements, v.nodeAt[q + [d] := id]);
    assert IsPrefix(q + [d], dx) by {
      assert dx[..|q| + 1] == q + [d];
    }
    assert dx[..|q| + 2] !in v'.nodeAt by {
      assert Shaped(v, q);
      SubMonotone(v.elements, dx[..|q| + 1], dx[..|q| + 2]);
      assert dx[..|q| + 2] != q + [d];
    }
    assert NodeOk(ns2, v', q + [d], q + [d]);
  }

  /** The last step of `addNode`: the leaf of `x` in slot 0 below the end of its path stores `x`. */
  lemma AttachLeaf(ns: seq<Node>, v: View, q: seq<int>, ptr: int, bp: int, x: string, l: int)
    requires GrowingOn(ns, v, q, ptr, bp, x, l) && |q| >= |Digits(x)| - 1
    ensures Digits(x) == q + [0] && bp == |q| && 0 <= ptr < |ns| && ptr == v.nodeAt[q]
    ensures 0 <= 0 < |ns[ptr].children| && ns[ptr].children[0] == Nil && Digits(x) !in v.nodeAt
    ensures var ns', v' := Attach(ns, ptr, 0, l), View(v.capacity, v.elements + {x}, v.nodeAt[Digits(x) := l]);
            Tree(ns', v', []) && SameLinks(ns, ns')
  {
    var dx := Digits(x);
    assert dx[..|q| + 1] == dx;
    assert dx == q + [0];
    TreeGrow(ns, v, q, 0, l);
    var ns' := Attach(ns, ptr, 0, l);
    var w := View(v.capacity, v.elements, v.nodeAt[dx := l]);
    assert ns'[l] == ns[l].(parent := ptr);
    TreeAdopt(ns', w, x);
  }

  /** After a search for an absent `x`: where `addNode` starts. */
  lemma FoundLanding(ns: seq<Node>, v: View, root: int, ptr: int, p: seq<int>, bp: int, x: string)
    requires WellFormed(ns) && v.capacity >= 1 && InAlphabet(x, v.capacity - 1) && Matching(v.elements, x) == {}
    requires root == Nil ==> v.elements == {} && v.nodeAt == map[]
    requires root != Nil ==> Tree(ns, v, []) && [] in v.nodeAt && v.nodeAt[[]] == root
    requires v.elements == {} ==> ptr == root && p == [] && bp == 0
    requires v.elements != {} ==>
               && root != Nil && p in v.nodeAt && ptr == v.nodeAt[p] && bp == |p| && ns[ptr].kind.Internal?
               && IsPrefix(p, Digits(x)) && |p| < |Digits(x)| && Digits(x)[..|p| + 1] !in v.nodeAt
    ensures LandingOn(ns, v, root, ptr, p, bp, x)
  {
    if v.elements == {} && root != Nil {
      assert NodeOk(ns, v, [], []);
      assert Digits(x)[..1] !in v.nodeAt by {
        assert Sub(v.elements, Digits(x)[..1]) == {};
      }
    }
  }

  /** Allocating the new leaf: where `addNode` starts is unchanged, and the leaf is in no path. */
  lemma LeafAllocated(ns: seq<Node>, v: View, root: int, ptr: int, p: seq<int>, bp: int, x: string)
    requires LandingOn(ns, v, root, ptr, p, bp, x)
    ensures LandingOn(ns + [LeafOf(x)], v, root, ptr, p, bp, x) && SameLinks(ns, ns + [LeafOf(x)])
    ensures forall q :: q in v.nodeAt ==> v.nodeAt[q] != |ns|
  {
    var n := LeafOf(x);
    assert NodeWellFormed(ns + [n], n);
    WellFormedAppend(ns, n);
    if root != Nil {
      TreeAppend(ns, v, [], n);
      assert (ns + [n])[ptr] == ns[ptr];
    }
  }

  /** Nodes that exist before an allocation: every list node and every tombstone. */
  lemma ListBelow(ns: seq<Node>, head: int, tail: int, order: seq<int>, rank: map<int, int>, clock: int)
    requires Linked(ns, head, tail, order) && Tombstones(ns, order, tail, rank, clock)
    ensures |ns| != head && |ns| != tail && |ns| !in order && |ns| !in rank
  {
    forall k | 0 <= k < |order| ensures order[k] < |ns| {
      assert LiveAt(ns, head, tail, order, k);
    }
    forall t | t in rank ensures t < |ns| {
      assert TombAt(ns, order, tail, rank, clock, t);
    }
  }

  /** Changes that keep every node's links and element keep the list and the stored strings. */
  lemma ListFrame(ns: seq<Node>, ns1: seq<Node>, ns': seq<Node>, head: int, tail: int, order: seq<int>,
                  rank: map<int, int>, clock: int, E: set<string>, na: map<seq<int>, int>, na': map<seq<int>, int>)
    requires Linked(ns, head, tail, order) && Tombstones(ns, order, tail, rank, clock) && Stored(ns, order, E, na)
    requires SameLinks(ns, ns1) && SameLinks(ns1, ns')
    requires forall p :: p in na ==> p in na' && na'[p] == na[p]
    ensures Linked(ns', head, tail, order) && Tombstones(ns', order, tail, rank, clock) && Stored(ns', order, E, na')
  {
    SameLinksTrans(ns, ns1, ns');
    StoredFrame(ns, ns', order, E, na, na');
    LinkedFrame(ns, ns', head, tail, order);
    TombstonesFrame(ns, ns', order, tail, rank, clock);
  }

  lemma StoredFrame(ns: seq<Node>, ns': seq<Node>, order: seq<int>, E: set<string>, na: map<seq<int>, int>, na': map<seq<int>, int>)
    requires Stored(ns, order, E, na) && SameLinks(ns, ns')
    requires forall p :: p in na ==> p in na' && na'[p] == na[p]
    ensures Stored(ns', order, E, na')
  {
    assert ContentsOf(ns', order) == ContentsOf(ns, order);
  }

  /** The leaf at path `p` holds the string whose digits are `p`. */
  lemma LeafPath(ns: seq<Node>, v: View, p: seq<int>)
    requires Tree(ns, v, []) && p in v.nodeAt && ns[v.nodeAt[p]].kind.Leaf?
    ensures Digits(ns[v.nodeAt[p]].element) == p
  {
    assert NodeOk(ns, v, [], p);
  }

  /**
   * The position in the list after which the new string `x` goes: the leaf of the greatest string
   * before `x`, or the head (-1) when there is none.
   */
  lemma PredecessorIndex(ns: seq<Node>, order: seq<int>, E: set<string>, na: map<seq<int>, int>, a: int,
                         x: string, found: bool, ptr: int) returns (j: int)
    requires Stored(ns, order, E, na) && Matching(E, x) == {} && InAlphabet(x, a) && forall e :: e in E ==> InAlphabet(e, a)
    requires found ==> && 0 <= ptr < |ns| && Greatest(Below(E, x), ns[ptr].element)
                       && Digits(ns[ptr].element) in na && na[Digits(ns[ptr].element)] == ptr
    requires !found ==> Below(E, x) == {}
    ensures -1 <= j < |order| && (found <==> j >= 0) && (j >= 0 ==> order[j] == ptr)
    ensures j >= 0 ==> Before(ContentsOf(ns, order)[j], x)
    ensures j + 1 < |order| ==> Before(x, ContentsOf(ns, order)[j + 1])
  {
    var s := ContentsOf(ns, order);
    assert forall e :: e in E ==> e in s;
    if found {
      var m := ns[ptr].element;
      assert m in s;
      j :| 0 <= j < |s| && s[j] == m;
      if j + 1 < |order| {
        var n := s[j + 1];
        assert n in E && n !in Matching(E, x);
        assert Before(m, n);
        if Before(n, x) {
          assert n in Below(E, x);
          if n == m {
            SortedDistinct(s, j, j + 1);
          } else {
            BeforeTransitive(m, n, m);
            BeforeIrreflexive(m);
          }
        }
        BeforeTotal(a, x, n);
      }
    } else {
      j := -1;
      if |order| > 0 {
        assert s[0] in E && s[0] !in Matching(E, x) && s[0] !in Below(E, x);
        BeforeTotal(a, x, s[0]);
      }
    }
  }

  /** `AddAfter` changes only the list links, and to nodes of the arena. */
  lemma SplicedSkeleton(ns: seq<Node>, l: int, other: int)
    requires WellFormed(ns)
    requires 0 <= l < |ns| && ns[l].kind.Leaf? && 0 <= other < |ns| && ns[other].kind.Leaf?
    requires 0 <= ns[other].kind.next < |ns| && ns[ns[other].kind.next].kind.Leaf?
    requires l != other && l != ns[other].kind.next && other != ns[other].kind.next
    ensures SameSkeleton(ns, Spliced(ns, l, other)) && WellFormed(Spliced(ns, l, other))
  {
    SplicedAt(ns, l, other);
    var ns', s := Spliced(ns, l, other), ns[other].kind.next;
    forall i | 0 <= i < |ns'| ensures NodeWellFormed(ns', ns'[i]) && SameShape(ns[i], ns'[i]) {
      assert NodeWellFormed(ns, ns[i]);
      if i != l && i != other && i != s {
        assert ns'[i] == ns[i];
      }
      assert ns'[i].children == ns[i].children;
    }
  }

  /** A new leaf of `x` spliced in between its neighbours in sorted order keeps the list sorted and complete. */
  lemma StoredInsert(ns: seq<Node>, ns': seq<Node>, order: seq<int>, order': seq<int>, E: set<string>,
                     na: map<seq<int>, int>, x: string, l: int, j: int)
    requires Stored(ns, order, E, na) && SameSkeleton(ns, ns') && -1 <= j < |order|
    requires order' == order[..j + 1] + [l] + order[j + 1..]
    requires 0 <= l < |ns| && ns[l].element == x && Digits(x) in na && na[Digits(x)] == l
    requires j >= 0 ==> Before(ContentsOf(ns, order)[j], x)
    requires j + 1 < |order| ==> Before(x, ContentsOf(ns, order)[j + 1])
    ensures Stored(ns', order', E + {x}, na)
  {
    var s := ContentsOf(ns, order);
    InsertContents(ns, ns', order, l, j);
    var t := s[..j + 1] + [x] + s[j + 1..];
    assert ContentsOf(ns', order') == t;
    SortedInsert(s, j + 1, x);
    SetInsert(s, j + 1, x);
    InsertLeaves(ns, ns', order, na, l, j);
  }

  lemma SetInsert(s: seq<string>, k: int, x: string)
    requires 0 <= k <= |s|
    ensures (set e | e in s[..k] + [x] + s[k..]) == (set e | e in s) + {x}
  {
    assert s == s[..k] + s[k..];
    forall e ensures e in s[..k] + [x] + s[k..] <==> e in s || e == x {
      assert e in s[..k] + [x] + s[k..] <==> e in s[..k] || e == x || e in s[k..];
    }
  }

  /** The strings along the list after splicing the leaf `l` in after position `j`. */
  lemma InsertContents(ns: seq<Node>, ns': seq<Node>, order: seq<int>, l: int, j: int)
    requires SameSkeleton(ns, ns') && -1 <= j < |order| && 0 <= l < |ns|
    requires forall k :: 0 <= k < |order| ==> 0 <= order[k] < |ns|
    ensures var order' := order[..j + 1] + [l] + order[j + 1..];
            && (forall k :: 0 <= k < |order'| ==> 0 <= order'[k] < |ns'|)
            && ContentsOf(ns', order') == ContentsOf(ns, order)[..j + 1] + [ns[l].element] + ContentsOf(ns, order)[j + 1..]
  {
    var s := ContentsOf(ns, order);
    var order' := order[..j + 1] + [l] + order[j + 1..];
    forall k | 0 <= k < |order'| ensures 0 <= order'[k] < |ns'| && SameShape(ns[order'[k]], ns'[order'[k]]) {
      if k < j + 1 {
        assert order'[k] == order[k];
      } else if k > j + 1 {
        assert order'[k] == order[k - 1];
      }
    }
    var s' := ContentsOf(ns', order');
    var t := s[..j + 1] + [ns[l].element] + s[j + 1..];
    forall k | 0 <= k < |s'| ensures s'[k] == t[k] {
      if k < j + 1 {
        assert order'[k] == order[k];
      } else if k > j + 1 {
        assert order'[k] == order[k - 1];
      }
    }
  }

  /** Every leaf of the spliced list is the leaf the tree has for its string. */
  lemma InsertLeaves(ns: seq<Node>, ns': seq<Node>, order: seq<int>, na: map<seq<int>, int>, l: int, j: int)
    requires SameSkeleton(ns, ns') && -1 <= j < |order| && 0 <= l < |ns|
    requires forall k :: 0 <= k < |order| ==> 0 <= order[k] < |ns|
    requires forall k :: 0 <= k < |order| ==>
               Digits(ns[order[k]].element) in na && na[Digits(ns[order[k]].element)] == order[k]
    requires Digits(ns[l].element) in na && na[Digits(ns[l].element)] == l
    ensures var order' := order[..j + 1] + [l] + order[j + 1..];
            forall k :: 0 <= k < |order'| ==>
              0 <= order'[k] < |ns'| && Digits(ns'[order'[k]].element) in na && na[Digits(ns'[order'[k]].element)] == order'[k]
  {
    var order' := order[..j + 1] + [l] + order[j + 1..];
    forall k | 0 <= k < |order'|
      ensures 0 <= order'[k] < |ns'| && Digits(ns'[order'[k]].element) in na && na[Digits(ns'[order'[k]].element)] == order'[k]
    {
      if k < j + 1 {
        assert order'[k] == order[k];
      } else if k > j + 1 {
        assert order'[k] == order[k - 1];
      }
      assert SameShape(ns[order'[k]], ns'[order'[k]]);
    }
  }

  // ---------------------------------------------------------------------------------------
  // Sorted sequences
  // ---------------------------------------------------------------------------------------

  /** A strictly sorted sequence has as many elements as its set. */
  lemma {:induction false} SortedCard(s: seq<string>, E: set<string>)
    requires StrictlySorted(s) && (set e | e in s) == E
    ensures |s| == |E|
  {
    if s != [] {
      var t := s[1..];
      assert StrictlySorted(t) by {
        forall i, j | 0 <= i < j < |t| ensures Before(t[i], t[j]) {
          assert t[i] == s[i + 1] && t[j] == s[j + 1];
        }
      }
      assert s[0] !in t by {
        forall i | 0 <= i < |t| ensures t[i] != s[0] {
          SortedDistinct(s, 0, i + 1);
        }
      }
      assert (set e | e in t) == E - {s[0]} by {
        forall e | e in E ensures e in t || e == s[0] {
          var i :| 0 <= i < |s| && s[i] == e;
          if i > 0 {
            assert t[i - 1] == e;
          }
        }
      }
      SortedCard(t, E - {s[0]});
    }
  }
}
