/**
 * How the tree invariant survives the edits the trie makes: allocating nodes, attaching a new
 * node below a path (addNode), detaching a childless node (the pruning in remove), relinking
 * leaves (which the tree ignores), and moving a string in or out of the view.
 */
module ShapeEdits {
  import opened Digitizer
  import opened Nodes
  import opened TrieShape

  /** The arena after `AddChildWithIndexOf(n, index, child)` fills an empty slot. */
  ghost function Attach(ns: seq<Node>, n: int, index: int, child: int): seq<Node>
    requires 0 <= n < |ns| && 0 <= child < |ns| && 0 <= index < |ns[n].children|
  {
    var filled := ns[n := ns[n].(children := ns[n].children[index := child], numChildren := ns[n].numChildren + 1)];
    filled[child := filled[child].(parent := n)]
  }

  /** The arena after `RemoveChildWithIndexOf(n, index)` empties an occupied slot. */
  ghost function Detach(ns: seq<Node>, n: int, index: int): seq<Node>
    requires 0 <= n < |ns| && 0 <= index < |ns[n].children|
  {
    ns[n := ns[n].(children := ns[n].children[index := Nil], numChildren := ns[n].numChildren - 1)]
  }

  /** Two nodes agree on everything but the leaf-list links. */
  ghost predicate SameShape(a: Node, b: Node)
  {
    && a.parent == b.parent && a.children == b.children && a.numChildren == b.numChildren
    && a.element == b.element && a.isRoot == b.isRoot && a.kind.Leaf? == b.kind.Leaf?
    && (a.kind.Leaf? ==> a.kind.isHead == b.kind.isHead && a.kind.isTail == b.kind.isTail)
  }

  ghost predicate SameSkeleton(ns: seq<Node>, ns': seq<Node>)
  {
    |ns| == |ns'| && forall i :: 0 <= i < |ns| ==> SameShape(ns[i], ns'[i])
  }

  /** A node not yet in the tree that can be attached at path `p`. */
  ghost predicate Fits(n: Node, v: View, p: seq<int>)
  {
    && !n.isRoot
    && (n.kind.Leaf? <==> EndsString(p))
    && (n.kind.Internal? ==> |n.children| == v.capacity && forall j :: 0 <= j < |n.children| ==> n.children[j] == Nil)
    && (n.kind.Leaf? ==>
          && n.children == [] && !n.kind.isHead && !n.kind.isTail
          && Digits(n.element) == p && InAlphabet(n.element, v.capacity - 1) && Sub(v.elements, p) == {})
  }

  lemma AppendCancel(p: seq<int>, j: int, q: seq<int>, d: int)
    ensures p + [j] == q + [d] ==> p == q && j == d
  {
    if p + [j] == q + [d] {
      assert (p + [j])[..|p|] == p;
      assert (q + [d])[..|q|] == q;
    }
  }

  lemma ParentPrefix(p: seq<int>, q: seq<int>)
    requires p != []
    ensures p[..|p| - 1] == q ==> IsPrefix(q, p)
  {
    if p[..|p| - 1] == q {
      assert p[..|q|] == q;
    }
  }

  lemma AttachWellFormed(ns: seq<Node>, n: int, index: int, child: int)
    requires WellFormed(ns) && 0 <= n < |ns| && 0 <= child < |ns|
    requires 0 <= index < |ns[n].children| && ns[n].children[index] == Nil
    ensures WellFormed(Attach(ns, n, index, child)) && |Attach(ns, n, index, child)| == |ns|
  {
    AddChildKeepsWellFormed(ns, n, index, child);
  }

  lemma DetachWellFormed(ns: seq<Node>, n: int, index: int)
    requires WellFormed(ns) && 0 <= n < |ns|
    requires 0 <= index < |ns[n].children| && ns[n].children[index] != Nil
    ensures WellFormed(Detach(ns, n, index)) && |Detach(ns, n, index)| == |ns|
  {
    RemoveChildKeepsWellFormed(ns, n, index);
  }

  // ---------------------------------------------------------------------------------------
  // Allocation and relinking
  // ---------------------------------------------------------------------------------------

  lemma WellFormedAppend(ns: seq<Node>, n: Node)
    requires WellFormed(ns) && NodeWellFormed(ns + [n], n)
    ensures WellFormed(ns + [n])
  {
    forall i | 0 <= i < |ns| + 1 ensures NodeWellFormed(ns + [n], (ns + [n])[i]) {
      if i < |ns| {
        assert (ns + [n])[i] == ns[i];
        assert NodeWellFormed(ns, ns[i]);
      }
    }
  }

  /** Appending a node to the arena leaves the tree as it was. */
  lemma TreeAppend(ns: seq<Node>, v: View, ext: seq<int>, n: Node)
    requires Tree(ns, v, ext) && NodeWellFormed(ns + [n], n)
    ensures Tree(ns + [n], v, ext)
  {
    WellFormedAppend(ns, n);
    forall p | p in v.nodeAt ensures NodeOk(ns + [n], v, ext, p) {
      assert NodeOk(ns, v, ext, p);
      assert (ns + [n])[v.nodeAt[p]] == ns[v.nodeAt[p]];
    }
  }

  /** The tree does not look at the leaf-list links. */
  lemma TreeFrame(ns: seq<Node>, ns': seq<Node>, v: View, ext: seq<int>)
    requires Tree(ns, v, ext) && SameSkeleton(ns, ns') && WellFormed(ns')
    ensures Tree(ns', v, ext)
  {
    forall p | p in v.nodeAt ensures NodeOk(ns', v, ext, p) {
      assert NodeOk(ns, v, ext, p);
      assert SameShape(ns[v.nodeAt[p]], ns'[v.nodeAt[p]]);
    }
  }

  // ---------------------------------------------------------------------------------------
  // Growing the tree
  // ---------------------------------------------------------------------------------------

  /** A new root alone is the tree of no strings. */
  lemma TreeRoot(ns: seq<Node>, capacity: int)
    requires WellFormed(ns) && capacity >= 1
    ensures Tree(ns + [EmptyNode(capacity).(isRoot := true)], View(capacity, {}, map[[] := |ns|]), [])
  {
    var r := EmptyNode(capacity).(isRoot := true);
    WellFormedAppend(ns, r);
    var v := View(capacity, {}, map[[] := |ns|]);
    forall p ensures p in v.nodeAt <==> p == [] || Sub({}, p) != {} || IsPrefix(p, []) {
    }
    assert NodeOk(ns + [r], v, [], []);
  }

  /** The search path reached in a tree may be taken as the path under construction. */
  lemma TreeWiden(ns: seq<Node>, v: View, p: seq<int>)
    requires Tree(ns, v, []) && p in v.nodeAt
    ensures Tree(ns, v, p)
  {
    PathProper(ns, v, [], p);
    forall r ensures r in v.nodeAt <==> r == [] || Sub(v.elements, r) != {} || IsPrefix(r, p) {
      if IsPrefix(r, p) {
        PrefixClosed(ns, v, [], r, p);
      }
    }
    forall r | r in v.nodeAt ensures NodeOk(ns, v, p, r) {
      assert NodeOk(ns, v, [], r);
    }
  }

  /** Attaching a fitting node in an empty slot below the end of the path under construction extends it. */
  lemma TreeGrow(ns: seq<Node>, v: View, ext: seq<int>, d: int, id: int)
    requires Tree(ns, v, ext) && ext in v.nodeAt && ns[v.nodeAt[ext]].kind.Internal?
    requires 0 <= d < v.capacity && ext + [d] !in v.nodeAt
    requires 0 <= id < |ns| && (forall p :: p in v.nodeAt ==> v.nodeAt[p] != id) && Fits(ns[id], v, ext + [d])
    ensures 0 <= d < |ns[v.nodeAt[ext]].children| && ns[v.nodeAt[ext]].children[d] == Nil
    ensures Tree(Attach(ns, v.nodeAt[ext], d, id), View(v.capacity, v.elements, v.nodeAt[ext + [d] := id]), ext + [d])
  {
    var P := v.nodeAt[ext];
    var q := ext + [d];
    var v' := View(v.capacity, v.elements, v.nodeAt[q := id]);
    assert NodeOk(ns, v, ext, ext);
    assert ns[P].children[d] == Nil;
    var ns' := Attach(ns, P, d, id);
    AttachWellFormed(ns, P, d, id);
    PathProper(ns, v, ext, ext);
    ShapedGrow(v, ext, d, id);
    InjectiveInsert(v.nodeAt, q, id);
    assert |ns'| == |ns|;
    forall p | p in v'.nodeAt ensures NodeOk(ns', v', q, p) {
      NodeOkGrow(ns, v, ext, d, id, p);
    }
  }

  lemma InjectiveInsert(m: map<seq<int>, int>, q: seq<int>, id: int)
    requires Injective(m) && q !in m && forall p :: p in m ==> m[p] != id
    ensures Injective(m[q := id])
  {
    var m' := m[q := id];
    forall p, r | Apart(m', p, r) ensures m'[p] != m'[r] {
      if p != q && r != q {
        assert Apart(m, p, r) && m'[p] == m[p] && m'[r] == m[r];
      }
    }
  }

  lemma InjectiveRemove(m: map<seq<int>, int>, q: seq<int>)
    requires Injective(m)
    ensures Injective(m - {q})
  {
    forall p, r | Apart(m - {q}, p, r) ensures (m - {q})[p] != (m - {q})[r] {
      assert Apart(m, p, r);
    }
  }

  lemma ShapedGrow(v: View, ext: seq<int>, d: int, id: int)
    requires Shaped(v, ext) && ProperPath(ext, v.capacity) && !EndsString(ext) && 0 <= d < v.capacity
    ensures ProperPath(ext + [d], v.capacity)
    ensures Shaped(View(v.capacity, v.elements, v.nodeAt[ext + [d] := id]), ext + [d])
  {
    var q := ext + [d];
    forall i | 0 <= i < |q| ensures 0 <= q[i] < v.capacity && (q[i] == 0 ==> i == |q| - 1) {
      if i < |ext| {
        assert q[i] == ext[i];
      }
    }
    forall p ensures p in v.nodeAt[q := id] <==> p == [] || Sub(v.elements, p) != {} || IsPrefix(p, q) {
      if IsPrefix(p, q) {
        PrefixOfExtension(p, ext, d);
      }
      if IsPrefix(p, ext) {
        assert q[..|p|] == ext[..|p|];
      }
    }
  }

  lemma NodeOkGrow(ns: seq<Node>, v: View, ext: seq<int>, d: int, id: int, p: seq<int>)
    requires Tree(ns, v, ext) && ext in v.nodeAt && ns[v.nodeAt[ext]].kind.Internal?
    requires 0 <= d < v.capacity && ext + [d] !in v.nodeAt
    requires 0 <= id < |ns| && (forall p :: p in v.nodeAt ==> v.nodeAt[p] != id) && Fits(ns[id], v, ext + [d])
    requires p in v.nodeAt[ext + [d] := id]
    ensures var P := v.nodeAt[ext];
            && 0 <= d < |ns[P].children|
            && var v' := View(v.capacity, v.elements, v.nodeAt[ext + [d] := id]);
               0 <= v'.nodeAt[p] < |Attach(ns, P, d, id)| && NodeOk(Attach(ns, P, d, id), v', ext + [d], p)
  {
    if p == ext + [d] {
      NodeOkGrowNew(ns, v, ext, d, id, p);
    } else if p == ext {
      NodeOkGrowParent(ns, v, ext, d, id, p);
    } else {
      NodeOkGrowOther(ns, v, ext, d, id, p);
    }
  }

  /** `NodeOkGrow` at the attached node itself. */
  lemma NodeOkGrowNew(ns: seq<Node>, v: View, ext: seq<int>, d: int, id: int, p: seq<int>)
    requires Tree(ns, v, ext) && ext in v.nodeAt && ns[v.nodeAt[ext]].kind.Internal?
    requires 0 <= d < v.capacity && ext + [d] !in v.nodeAt
    requires 0 <= id < |ns| && (forall p :: p in v.nodeAt ==> v.nodeAt[p] != id) && Fits(ns[id], v, ext + [d])
    requires p in v.nodeAt[ext + [d] := id] && p == ext + [d]
    ensures var P := v.nodeAt[ext];
            && 0 <= d < |ns[P].children|
            && var v' := View(v.capacity, v.elements, v.nodeAt[ext + [d] := id]);
               0 <= v'.nodeAt[p] < |Attach(ns, P, d, id)| && NodeOk(Attach(ns, P, d, id), v', ext + [d], p)
  {
    var P := v.nodeAt[ext];
    var q := ext + [d];
    var na' := v.nodeAt[q := id];
    var v' := View(v.capacity, v.elements, na');
    assert NodeOk(ns, v, ext, ext);
    var ns' := Attach(ns, P, d, id);
    assert P != id;
    assert ns'[id] == ns[id].(parent := P);
    assert q[..|q| - 1] == ext;
    forall j | 0 <= j < |ns[id].children| && ns[id].kind.Internal?
      ensures ns'[id].children[j] == (if q + [j] in na' then na'[q + [j]] else Nil)
    {
      assert q + [j] != q;
      assert IsPrefix(q, q + [j]);
      assert q + [j] in v.nodeAt ==> q in v.nodeAt by {
        if q + [j] in v.nodeAt {
          PrefixClosed(ns, v, ext, q, q + [j]);
        }
      }
    }
  }

  /** `NodeOkGrow` at the node the new one is attached to. */
  lemma NodeOkGrowParent(ns: seq<Node>, v: View, ext: seq<int>, d: int, id: int, p: seq<int>)
    requires Tree(ns, v, ext) && ext in v.nodeAt && ns[v.nodeAt[ext]].kind.Internal?
    requires 0 <= d < v.capacity && ext + [d] !in v.nodeAt
    requires 0 <= id < |ns| && (forall p :: p in v.nodeAt ==> v.nodeAt[p] != id) && Fits(ns[id], v, ext + [d])
    requires p in v.nodeAt[ext + [d] := id] && p == ext
    ensures var P := v.nodeAt[ext];
            && 0 <= d < |ns[P].children|
            && var v' := View(v.capacity, v.elements, v.nodeAt[ext + [d] := id]);
               0 <= v'.nodeAt[p] < |Attach(ns, P, d, id)| && NodeOk(Attach(ns, P, d, id), v', ext + [d], p)
  {
    var P := v.nodeAt[ext];
    var q := ext + [d];
    var na' := v.nodeAt[q := id];
    var v' := View(v.capacity, v.elements, na');
    assert NodeOk(ns, v, ext, ext);
    var ns' := Attach(ns, P, d, id);
    assert P != id;
    assert ns'[P] == ns[P].(children := ns[P].children[d := id], numChildren := ns[P].numChildren + 1);
    forall j | 0 <= j < v.capacity ensures ns'[P].children[j] == (if ext + [j] in na' then na'[ext + [j]] else Nil) {
      assert j != d ==> ext + [j] != q;
    }
    assert ext != [] ==> ext[..|ext| - 1] != q;
  }

  /** `NodeOkGrow` at every other node: it is untouched. */
  lemma NodeOkGrowOther(ns: seq<Node>, v: View, ext: seq<int>, d: int, id: int, p: seq<int>)
    requires Tree(ns, v, ext) && ext in v.nodeAt && ns[v.nodeAt[ext]].kind.Internal?
    requires 0 <= d < v.capacity && ext + [d] !in v.nodeAt
    requires 0 <= id < |ns| && (forall p :: p in v.nodeAt ==> v.nodeAt[p] != id) && Fits(ns[id], v, ext + [d])
    requires p in v.nodeAt[ext + [d] := id] && p != ext + [d] && p != ext
    ensures var P := v.nodeAt[ext];
            && 0 <= d < |ns[P].children|
            && var v' := View(v.capacity, v.elements, v.nodeAt[ext + [d] := id]);
               0 <= v'.nodeAt[p] < |Attach(ns, P, d, id)| && NodeOk(Attach(ns, P, d, id), v', ext + [d], p)
  {
    var P := v.nodeAt[ext];
    var q := ext + [d];
    var na' := v.nodeAt[q := id];
    var v' := View(v.capacity, v.elements, na');
    assert NodeOk(ns, v, ext, ext);
    var ns' := Attach(ns, P, d, id);
    assert P != id;
    assert NodeOk(ns, v, ext, p);
    var i := v.nodeAt[p];
    assert Apart(v.nodeAt, p, ext);
    assert i != P && i != id;
    assert ns'[i] == ns[i];
    if p != [] {
      ParentPrefix(p, q);
      assert IsPrefix(q, p) ==> q in v.nodeAt by {
        if IsPrefix(q, p) {
          PrefixClosed(ns, v, ext, q, p);
        }
      }
    }
    forall j | 0 <= j < v.capacity && ns[i].kind.Internal?
      ensures ns'[i].children[j] == (if p + [j] in na' then na'[p + [j]] else Nil)
    {
      AppendCancel(p, j, ext, d);
    }
  }

  /** Once the leaf of `x` is attached at the end of the path under construction, `x` is stored. */
  lemma TreeAdopt(ns: seq<Node>, v: View, x: string)
    requires Tree(ns, v, Digits(x)) && Digits(x) in v.nodeAt && ns[v.nodeAt[Digits(x)]].element == x
    requires InAlphabet(x, v.capacity - 1)
    ensures Tree(ns, View(v.capacity, v.elements + {x}, v.nodeAt), [])
  {
    ShapedAdopt(v, x);
    NodesAdopt(ns, v, x);
  }

  lemma NodesAdopt(ns: seq<Node>, v: View, x: string)
    requires v.capacity >= 1 && InAlphabet(x, v.capacity - 1)
    requires forall p :: p in v.nodeAt ==> 0 <= v.nodeAt[p] < |ns|
    requires forall p {:trigger NodeOk(ns, v, Digits(x), p)} :: p in v.nodeAt ==> NodeOk(ns, v, Digits(x), p)
    requires Digits(x) in v.nodeAt && ns[v.nodeAt[Digits(x)]].element == x
    ensures forall p {:trigger NodeOk(ns, View(v.capacity, v.elements + {x}, v.nodeAt), [], p)} ::
              p in v.nodeAt ==> NodeOk(ns, View(v.capacity, v.elements + {x}, v.nodeAt), [], p)
  {
    var v' := View(v.capacity, v.elements + {x}, v.nodeAt);
    DigitsProper(x, v.capacity);
    forall p | p in v'.nodeAt ensures NodeOk(ns, v', [], p) {
      assert NodeOk(ns, v, Digits(x), p);
      SubUnion(v.elements, x, p);
      if EndsString(p) && IsPrefix(p, Digits(x)) {
        EndsStringPrefix(p, Digits(x), v.capacity);
      }
    }
  }

  lemma ShapedAdopt(v: View, x: string)
    requires Shaped(v, Digits(x))
    ensures Shaped(View(v.capacity, v.elements + {x}, v.nodeAt), [])
  {
    forall p ensures p in v.nodeAt <==> p == [] || Sub(v.elements + {x}, p) != {} || IsPrefix(p, []) {
      SubUnion(v.elements, x, p);
      assert x in Sub(v.elements + {x}, p) <==> IsPrefix(p, Digits(x));
    }
  }

  // ---------------------------------------------------------------------------------------
  // Shrinking the tree
  // ---------------------------------------------------------------------------------------

  /** Dropping `x` from the view turns its path into the path being torn down. */
  lemma TreeRelease(ns: seq<Node>, v: View, x: string)
    requires Tree(ns, v, []) && x in v.elements
    ensures Tree(ns, View(v.capacity, v.elements - {x}, v.nodeAt), Digits(x))
    ensures Sub(v.elements - {x}, Digits(x)) == {}
  {
    var v' := View(v.capacity, v.elements - {x}, v.nodeAt);
    DigitsProper(x, v.capacity);
    ShapedRelease(v, x);
    forall p | p in v.nodeAt ensures NodeOk(ns, v', Digits(x), p) {
      assert NodeOk(ns, v, [], p);
      assert Sub(v'.elements, p) <= Sub(v.elements, p);
    }
    KeyLeaf(ns, v, [], x);
    LeafSub(ns, v, [], Digits(x));
  }

  lemma ShapedRelease(v: View, x: string)
    requires Shaped(v, []) && x in v.elements
    ensures Shaped(View(v.capacity, v.elements - {x}, v.nodeAt), Digits(x))
  {
    var E' := v.elements - {x};
    assert E' + {x} == v.elements;
    forall p ensures p in v.nodeAt <==> p == [] || Sub(E', p) != {} || IsPrefix(p, Digits(x)) {
      SubUnion(E', x, p);
    }
  }

  /** The nodes below the end of a path being torn down, with nothing stored below it, are that end alone. */
  lemma BelowEmptyEnd(ns: seq<Node>, v: View, ext: seq<int>, p: seq<int>)
    requires Tree(ns, v, ext) && Sub(v.elements, ext) == {} && p in v.nodeAt
    ensures IsPrefix(ext, p) ==> p == ext
  {
    if IsPrefix(ext, p) {
      SubMonotone(v.elements, ext, p);
      if p == [] {
        assert ext == [];
      } else {
        assert IsPrefix(p, ext);
      }
    }
  }

  /**
   * A node on the path being torn down with a stored string below it has a child; the leaf of
   * the removed string `x` has nothing stored below it.
   */
  lemma OccupiedWhenStored(ns: seq<Node>, v: View, ext: seq<int>, p: seq<int>, x: string)
    requires Tree(ns, v, ext) && p in v.nodeAt && Sub(v.elements, Digits(x)) == {}
    requires EndsString(p) ==> p == Digits(x)
    ensures EndsString(p) ==> Sub(v.elements, p) == {}
    ensures !EndsString(p) && Sub(v.elements, p) != {} ==> ns[v.nodeAt[p]].numChildren > 0
  {
    if EndsString(p) {
    } else if Sub(v.elements, p) != {} {
      var e :| e in Sub(v.elements, p);
      assert NodeOk(ns, v, ext, p);
      InnerChild(v, ext, p, e);
      var dj := Digits(e)[|p|];
      assert ns[v.nodeAt[p]].children[dj] == v.nodeAt[p + [dj]];
      OccupiedPositive(ns[v.nodeAt[p]].children);
    }
  }

  /** Detaching the childless end of the path being torn down shortens that path by one. */
  lemma TreePrune(ns: seq<Node>, v: View, ext: seq<int>)
    requires Tree(ns, v, ext) && ext != [] && ext in v.nodeAt && Sub(v.elements, ext) == {}
    ensures var q, d := ext[..|ext| - 1], ext[|ext| - 1];
            && q in v.nodeAt && ns[v.nodeAt[ext]].parent == v.nodeAt[q]
            && 0 <= d < |ns[v.nodeAt[q]].children| && ns[v.nodeAt[q]].children[d] == v.nodeAt[ext] != Nil
            && Tree(Detach(ns, v.nodeAt[q], d), View(v.capacity, v.elements, v.nodeAt - {ext}), q)
  {
    var q, d := ext[..|ext| - 1], ext[|ext| - 1];
    assert ext == q + [d];
    assert NodeOk(ns, v, ext, ext);
    var P := v.nodeAt[q];
    PathProper(ns, v, ext, ext);
    assert !EndsString(q) by {
      if |q| > 0 {
        assert q[|q| - 1] == ext[|q| - 1];
      }
    }
    assert NodeOk(ns, v, ext, q);
    assert ns[P].children[d] == v.nodeAt[ext];
    DetachWellFormed(ns, P, d);
    var na' := v.nodeAt - {ext};
    var v' := View(v.capacity, v.elements, na');
    var ns' := Detach(ns, P, d);
    PrefixProper(q, ext, v.capacity);
    ShapedPrune(v, ext);
    InjectiveRemove(v.nodeAt, ext);
    forall p | p in na' ensures NodeOk(ns', v', q, p) {
      NodeOkPrune(ns, v, ext, p);
    }
  }

  lemma ShapedPrune(v: View, ext: seq<int>)
    requires Shaped(v, ext) && ext != [] && ext in v.nodeAt && Sub(v.elements, ext) == {}
    ensures Shaped(View(v.capacity, v.elements, v.nodeAt - {ext}), ext[..|ext| - 1])
  {
    var q, d := ext[..|ext| - 1], ext[|ext| - 1];
    assert ext == q + [d];
    forall p ensures p in v.nodeAt - {ext} <==> p == [] || Sub(v.elements, p) != {} || IsPrefix(p, q) {
      if IsPrefix(p, ext) {
        PrefixOfExtension(p, q, d);
      }
      if IsPrefix(p, q) {
        PrefixTransitive(p, q, ext);
      }
    }
  }

  lemma NodeOkPrune(ns: seq<Node>, v: View, ext: seq<int>, p: seq<int>)
    requires Tree(ns, v, ext) && ext != [] && ext in v.nodeAt && Sub(v.elements, ext) == {}
    requires p in v.nodeAt && p != ext
    requires var q := ext[..|ext| - 1]; q in v.nodeAt && !EndsString(q) && ns[v.nodeAt[q]].kind.Internal?
    ensures var q, d := ext[..|ext| - 1], ext[|ext| - 1];
            && 0 <= d < |ns[v.nodeAt[q]].children|
            && var v' := View(v.capacity, v.elements, v.nodeAt - {ext});
               0 <= v'.nodeAt[p] < |Detach(ns, v.nodeAt[q], d)| && NodeOk(Detach(ns, v.nodeAt[q], d), v', q, p)
  {
    var q, d := ext[..|ext| - 1], ext[|ext| - 1];
    assert ext == q + [d];
    var P := v.nodeAt[q];
    assert NodeOk(ns, v, ext, q);
    var na' := v.nodeAt - {ext};
    var v' := View(v.capacity, v.elements, na');
    var ns' := Detach(ns, P, d);
    assert NodeOk(ns, v, ext, p);
    if p == q {
      forall j | 0 <= j < v.capacity ensures ns'[P].children[j] == (if q + [j] in na' then na'[q + [j]] else Nil) {
      }
      assert q != [] ==> q[..|q| - 1] != ext;
    } else {
      var i := v.nodeAt[p];
      assert Apart(v.nodeAt, p, q);
      assert ns'[i] == ns[i];
      if p != [] {
        BelowEmptyEnd(ns, v, ext, p);
        ParentPrefix(p, ext);
      }
      forall j | 0 <= j < v.capacity && ns[i].kind.Internal?
        ensures ns'[i].children[j] == (if p + [j] in na' then na'[p + [j]] else Nil)
      {
        AppendCancel(p, j, q, d);
      }
    }
  }

  /** A path under construction with a stored string below it (or the root path) is no longer special. */
  lemma TreeSettle(ns: seq<Node>, v: View, ext: seq<int>)
    requires Tree(ns, v, ext) && (ext == [] || Sub(v.elements, ext) != {})
    ensures Tree(ns, v, [])
  {
    forall p ensures p in v.nodeAt <==> p == [] || Sub(v.elements, p) != {} || IsPrefix(p, []) {
      if IsPrefix(p, ext) && ext != [] {
        SubMonotone(v.elements, p, ext);
      }
    }
    forall p | p in v.nodeAt ensures NodeOk(ns, v, [], p) {
      assert NodeOk(ns, v, ext, p);
      if p == ext && EndsString(p) {
        LeafSub(ns, v, ext, p);
      }
    }
  }
}
