/**
 * The shape of a trie's tree, stated over the arena and a ghost view: the stored strings and the
 * node at each digit path. The node at path p exists exactly when p is the root path or a prefix
 * of the digit sequence of a stored string; it is a leaf exactly when p ends with the
 * end-of-string digit, and then it holds the one stored string whose digit sequence is p. Strings
 * equal up to case have the same digit sequence, so the trie stores at most one of them.
 */
module TrieShape {
  import opened Digitizer
  import opened Nodes

  /** The ghost view of a trie: its capacity, its stored strings and the node id at each path. */
  datatype View = View(capacity: int, elements: set<string>, nodeAt: map<seq<int>, int>)

  /** The stored strings in the subtree at path `p`. */
  ghost function Sub(E: set<string>, p: seq<int>): set<string>
  {
    set e | e in E && IsPrefix(p, Digits(e))
  }

  /** The stored strings with the digit sequence of `x`: those equal to `x` up to case. */
  ghost function Matching(E: set<string>, x: string): set<string>
  {
    set e | e in E && Digits(e) == Digits(x)
  }

  /** A path ending with the end-of-string digit: the path of a leaf. */
  predicate EndsString(p: seq<int>)
  {
    |p| > 0 && p[|p| - 1] == 0
  }

  /** Every digit is below `capacity`, and 0 occurs at most in last place. */
  predicate ProperPath(p: seq<int>, capacity: int)
  {
    forall i :: 0 <= i < |p| ==> 0 <= p[i] < capacity && (p[i] == 0 ==> i == |p| - 1)
  }

  /** Two different paths of `m`: the instances of `Injective`, which proofs name explicitly. */
  ghost predicate Apart(m: map<seq<int>, int>, p: seq<int>, q: seq<int>)
  {
    p in m && q in m && p != q
  }

  /** No two paths share a node. */
  ghost predicate Injective(m: map<seq<int>, int>)
  {
    forall p, q {:trigger Apart(m, p, q)} :: Apart(m, p, q) ==> m[p] != m[q]
  }

  /**
   * The paths with a node: the root path, the prefixes of stored strings' digit sequences, and the
   * prefixes of `ext`, a path being built or torn down.
   */
  ghost predicate Shaped(v: View, ext: seq<int>)
  {
    forall p :: p in v.nodeAt <==> p == [] || Sub(v.elements, p) != {} || IsPrefix(p, ext)
  }

  /** An internal node at `p` has one slot per digit, holding the node at the extended path or Nil. */
  ghost predicate SlotsOk(n: Node, v: View, p: seq<int>)
  {
    && |n.children| == v.capacity
    && forall d {:trigger n.children[d]} :: 0 <= d < v.capacity ==>
         n.children[d] == (if p + [d] in v.nodeAt then v.nodeAt[p + [d]] else Nil)
  }

  ghost predicate NodeOk(ns: seq<Node>, v: View, ext: seq<int>, p: seq<int>)
    requires p in v.nodeAt && 0 <= v.nodeAt[p] < |ns|
  {
    var n := ns[v.nodeAt[p]];
    && n.isRoot == (p == [])
    && (p == [] ==> n.parent == Nil)
    && (p != [] ==> p[..|p| - 1] in v.nodeAt && n.parent == v.nodeAt[p[..|p| - 1]])
    && (n.kind.Leaf? <==> EndsString(p))
    && (n.kind.Internal? ==> SlotsOk(n, v, p))
    && (n.kind.Leaf? ==>
          && n.children == [] && !n.kind.isHead && !n.kind.isTail
          && Digits(n.element) == p && InAlphabet(n.element, v.capacity - 1)
          && (n.element in v.elements || p == ext) && Sub(v.elements, p) <= {n.element})
  }

  /** The tree invariant; `ext` is a path whose nodes may exist without a stored string below them. */
  ghost predicate Tree(ns: seq<Node>, v: View, ext: seq<int>)
  {
    && WellFormed(ns)
    && v.capacity >= 1
    && (forall e :: e in v.elements ==> InAlphabet(e, v.capacity - 1))
    && ProperPath(ext, v.capacity)
    && Shaped(v, ext)
    && Injective(v.nodeAt)
    && (forall p :: p in v.nodeAt ==> 0 <= v.nodeAt[p] < |ns|)
    && (forall p {:trigger NodeOk(ns, v, ext, p)} :: p in v.nodeAt ==> NodeOk(ns, v, ext, p))
  }

  /** A bound on the length of every stored digit sequence. */
  ghost function MaxDigits(E: set<string>): (m: nat)
    ensures forall e :: e in E ==> |Digits(e)| <= m
  {
    if E == {} then 0
    else
      var e :| e in E;
      var rest := MaxDigits(E - {e});
      if |Digits(e)| > rest then |Digits(e)| else rest
  }

  // ---------------------------------------------------------------------------------------
  // Paths
  // ---------------------------------------------------------------------------------------

  lemma DigitsProper(e: string, capacity: int)
    requires capacity >= 1 && InAlphabet(e, capacity - 1)
    ensures ProperPath(Digits(e), capacity) && EndsString(Digits(e))
  {
    forall i | 0 <= i < |Digits(e)|
      ensures 0 <= Digits(e)[i] < capacity && (Digits(e)[i] == 0 ==> i == |Digits(e)| - 1)
    {
      DigitsInRange(capacity - 1, e, i);
    }
  }

  lemma PrefixProper(p: seq<int>, q: seq<int>, capacity: int)
    requires ProperPath(q, capacity) && IsPrefix(p, q)
    ensures ProperPath(p, capacity)
  {
    forall i | 0 <= i < |p| ensures 0 <= p[i] < capacity && (p[i] == 0 ==> i == |p| - 1) {
      assert p[i] == q[i];
    }
  }

  /** A leaf path that is a prefix of a proper path is that whole path. */
  lemma EndsStringPrefix(p: seq<int>, q: seq<int>, capacity: int)
    requires ProperPath(q, capacity) && EndsString(p) && IsPrefix(p, q)
    ensures p == q
  {
    assert q[|p| - 1] == p[|p| - 1];
  }

  lemma PrefixTransitive(p: seq<int>, q: seq<int>, r: seq<int>)
    requires IsPrefix(p, q) && IsPrefix(q, r)
    ensures IsPrefix(p, r)
  {
    assert r[..|q|][..|p|] == r[..|p|];
  }

  lemma PrefixOfExtension(p: seq<int>, q: seq<int>, d: int)
    requires IsPrefix(p, q + [d])
    ensures p == q + [d] || IsPrefix(p, q)
  {
    if |p| <= |q| {
      assert (q + [d])[..|p|] == q[..|p|];
    }
  }

  /** A subtree below a path lies inside the subtree at every prefix of that path. */
  lemma SubMonotone(E: set<string>, p: seq<int>, q: seq<int>)
    requires IsPrefix(p, q)
    ensures Sub(E, q) <= Sub(E, p)
  {
    forall e | e in Sub(E, q) ensures e in Sub(E, p) {
      PrefixTransitive(p, q, Digits(e));
    }
  }

  lemma SubUnion(E: set<string>, x: string, p: seq<int>)
    ensures Sub(E + {x}, p) == Sub(E, p) + (if IsPrefix(p, Digits(x)) then {x} else {})
  {
  }

  // ---------------------------------------------------------------------------------------
  // Facts about a tree
  // ---------------------------------------------------------------------------------------

  /** Every path with a node is proper. */
  lemma PathProper(ns: seq<Node>, v: View, ext: seq<int>, p: seq<int>)
    requires Tree(ns, v, ext) && p in v.nodeAt
    ensures ProperPath(p, v.capacity)
  {
    if p == [] {
    } else if Sub(v.elements, p) != {} {
      var e :| e in Sub(v.elements, p);
      DigitsProper(e, v.capacity);
      PrefixProper(p, Digits(e), v.capacity);
    } else {
      PrefixProper(p, ext, v.capacity);
    }
  }

  /** The paths with a node are closed under taking prefixes. */
  lemma PrefixClosed(ns: seq<Node>, v: View, ext: seq<int>, p: seq<int>, q: seq<int>)
    requires Tree(ns, v, ext) && q in v.nodeAt && IsPrefix(p, q)
    ensures p in v.nodeAt
  {
    if q == [] {
      assert p == [];
    } else if Sub(v.elements, q) != {} {
      SubMonotone(v.elements, p, q);
    } else {
      PrefixTransitive(p, q, ext);
    }
  }

  /** Below a leaf lies at most its own string, and exactly that string unless it is being torn down. */
  lemma LeafSub(ns: seq<Node>, v: View, ext: seq<int>, p: seq<int>)
    requires Tree(ns, v, ext) && p in v.nodeAt && EndsString(p)
    ensures ns[v.nodeAt[p]].kind.Leaf?
    ensures Sub(v.elements, p) <= {ns[v.nodeAt[p]].element}
    ensures ns[v.nodeAt[p]].element in v.elements ==> Sub(v.elements, p) == {ns[v.nodeAt[p]].element}
  {
    assert NodeOk(ns, v, ext, p);
    var m := ns[v.nodeAt[p]].element;
    assert m in v.elements ==> m in Sub(v.elements, p);
  }

  /** A stored string has its leaf at its digit sequence. */
  lemma KeyLeaf(ns: seq<Node>, v: View, ext: seq<int>, e: string)
    requires Tree(ns, v, ext) && e in v.elements
    ensures Digits(e) in v.nodeAt
    ensures ns[v.nodeAt[Digits(e)]].kind.Leaf? && ns[v.nodeAt[Digits(e)]].element == e
  {
    assert e in Sub(v.elements, Digits(e));
    assert NodeOk(ns, v, ext, Digits(e));
    DigitsProper(e, v.capacity);
  }

  /** A string matching `x` lies in the subtree at the digit sequence of `x`. */
  lemma MatchingInSub(E: set<string>, x: string)
    ensures Matching(E, x) <= Sub(E, Digits(x))
  {
    forall e | e in Matching(E, x) ensures e in Sub(E, Digits(x)) {
      assert Digits(e)[..|Digits(x)|] == Digits(e);
    }
  }

  /** For strings in the alphabet, the subtree at the digit sequence of `x` holds exactly the strings matching `x`. */
  lemma MatchingSub(E: set<string>, x: string, capacity: int)
    requires forall e :: e in E ==> InAlphabet(e, capacity - 1)
    requires InAlphabet(x, capacity - 1)
    ensures Matching(E, x) == Sub(E, Digits(x))
  {
    forall e | e in Sub(E, Digits(x)) ensures Digits(e) == Digits(x) {
      PrefixFree(capacity - 1, x, e);
    }
  }

  /** Below an internal node every stored string continues into the slot of its next digit. */
  lemma InnerChild(v: View, ext: seq<int>, p: seq<int>, e: string)
    requires v.capacity >= 1 && Shaped(v, ext) && !EndsString(p) && e in Sub(v.elements, p)
    requires InAlphabet(e, v.capacity - 1)
    ensures |p| < |Digits(e)| && 0 <= Digits(e)[|p|] < v.capacity
    ensures p + [Digits(e)[|p|]] in v.nodeAt && e in Sub(v.elements, p + [Digits(e)[|p|]])
  {
    var de := Digits(e);
    DigitsProper(e, v.capacity);
    assert de[..|p| + 1] == p + [de[|p|]];
    assert e in Sub(v.elements, p + [de[|p|]]);
  }

  /** Subtrees in lower slots hold strings that come first. */
  lemma SlotOrder(E: set<string>, p: seq<int>, d1: int, d2: int, e1: string, e2: string)
    requires d1 < d2 && e1 in Sub(E, p + [d1]) && e2 in Sub(E, p + [d2])
    ensures Before(e1, e2)
  {
    assert (p + [d1])[..|p|] == (p + [d2])[..|p|];
    assert LessAt(p + [d1], p + [d2], |p|);
    LexLessExtendBoth(p + [d1], p + [d2], Digits(e1), Digits(e2));
  }

  /** A string below a path comes before every string below an extension of the path. */
  lemma SubBeforeExtension(E: set<string>, e: string, p: seq<int>, q: seq<int>, f: string)
    requires LexLess(Digits(e), p) && IsPrefix(p, q) && f in Sub(E, q)
    ensures Before(e, f)
  {
    PrefixTransitive(p, q, Digits(f));
    LexLessExtend(Digits(e), p, Digits(f));
  }

  /** The tree has no node at a path outside every stored string when nothing is under construction. */
  lemma NoExtraPaths(ns: seq<Node>, v: View, p: seq<int>)
    requires Tree(ns, v, []) && p in v.nodeAt && p != []
    ensures Sub(v.elements, p) != {}
  {
  }

  // ---------------------------------------------------------------------------------------
  // Sorted sequences of strings
  // ---------------------------------------------------------------------------------------

  /** Strictly increasing in the digit order. */
  ghost predicate StrictlySorted(s: seq<string>)
  {
    forall i, j {:trigger Before(s[i], s[j])} :: 0 <= i < j < |s| ==> Before(s[i], s[j])
  }

  /** Two sorted runs, the first entirely before the second, concatenate to a sorted run. */
  lemma SortedAppend(s: seq<string>, t: seq<string>)
    requires StrictlySorted(s) && StrictlySorted(t)
    requires forall a, b :: a in s && b in t ==> Before(a, b)
    ensures StrictlySorted(s + t)
  {
    forall i, j | 0 <= i < j < |s + t| ensures Before((s + t)[i], (s + t)[j]) {
      if j < |s| {
        assert (s + t)[i] == s[i] && (s + t)[j] == s[j];
      } else if i >= |s| {
        assert (s + t)[i] == t[i - |s|] && (s + t)[j] == t[j - |s|];
      } else {
        assert (s + t)[i] == s[i] && (s + t)[j] == t[j - |s|];
      }
    }
  }

  /** A sorted run has no repeated string. */
  lemma SortedDistinct(s: seq<string>, i: int, j: int)
    requires StrictlySorted(s) && 0 <= i < |s| && 0 <= j < |s| && i != j
    ensures s[i] != s[j]
  {
    if i < j {
      BeforeIrreflexive(s[i]);
    } else {
      BeforeIrreflexive(s[j]);
    }
  }

  /** Splicing a string between a smaller and a larger neighbour keeps a run sorted. */
  lemma SortedInsert(s: seq<string>, k: int, x: string)
    requires StrictlySorted(s) && 0 <= k <= |s|
    requires k > 0 ==> Before(s[k - 1], x)
    requires k < |s| ==> Before(x, s[k])
    ensures StrictlySorted(s[..k] + [x] + s[k..])
  {
    var t := s[..k] + [x] + s[k..];
    forall i, j | 0 <= i < j < |t| ensures Before(t[i], t[j]) {
      if j < k {
        assert t[i] == s[i] && t[j] == s[j];
      } else if j == k {
        assert t[i] == s[i] && t[j] == x;
        if i < k - 1 {
          BeforeTransitive(s[i], s[k - 1], x);
        }
      } else if i == k {
        assert t[i] == x && t[j] == s[j - 1];
        if j - 1 > k {
          BeforeTransitive(x, s[k], s[j - 1]);
        }
      } else if i < k {
        assert t[i] == s[i] && t[j] == s[j - 1];
      } else {
        assert t[i] == s[i - 1] && t[j] == s[j - 1];
      }
    }
  }

  /** Dropping an element keeps a run sorted. */
  lemma SortedDelete(s: seq<string>, k: int)
    requires StrictlySorted(s) && 0 <= k < |s|
    ensures StrictlySorted(s[..k] + s[k + 1..])
  {
    var t := s[..k] + s[k + 1..];
    forall i, j | 0 <= i < j < |t| ensures Before(t[i], t[j]) {
      if j < k {
        assert t[i] == s[i] && t[j] == s[j];
      } else if i < k {
        assert t[i] == s[i] && t[j] == s[j + 1];
      } else {
        assert t[i] == s[i + 1] && t[j] == s[j + 1];
      }
    }
  }

  /** The first element of a sorted run holding exactly the set E is the least of E, the last the greatest. */
  lemma SortedEnds(s: seq<string>, E: set<string>)
    requires StrictlySorted(s) && (set e | e in s) == E && s != []
    ensures forall e :: e in E ==> e == s[0] || Before(s[0], e)
    ensures forall e :: e in E ==> e == s[|s| - 1] || Before(e, s[|s| - 1])
  {
    forall e | e in E ensures e == s[0] || Before(s[0], e) {
      var i :| 0 <= i < |s| && s[i] == e;
    }
    forall e | e in E ensures e == s[|s| - 1] || Before(e, s[|s| - 1]) {
      var i :| 0 <= i < |s| && s[i] == e;
    }
  }
}
