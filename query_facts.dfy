/**
 * The order queries of the trie over plain values: the ends of the sorted run of stored strings,
 * the string that follows a given one, the strings under a prefix, and the longest prefix of a
 * string that some stored string shares.
 */
module QueryFacts {
  import opened Digitizer
  import opened Nodes
  import opened TrieShape
  import opened Search
  import opened LeafList
  import opened TrieFacts

  // ---------------------------------------------------------------------------------------
  // Neighbours in the sorted run
  // ---------------------------------------------------------------------------------------

  /** The ends of a sorted run holding every stored string are the least and the greatest string. */
  lemma RunEnds(s: seq<string>, E: set<string>)
    requires StrictlySorted(s) && Members(s) == E && E != {}
    ensures s != [] && Least(E, s[0]) && Greatest(E, s[|s| - 1])
  {
    var e :| e in E;
    assert e in s;
    SortedEnds(s, E);
  }

  /** In the leaf list, the head's successor holds the least stored string, the tail's predecessor the greatest. */
  lemma ListEndsOn(ns: seq<Node>, head: int, tail: int, order: seq<int>, E: set<string>, na: map<seq<int>, int>)
    requires Linked(ns, head, tail, order) && Stored(ns, order, E, na) && E != {}
    ensures order != [] && ns[head].kind.Leaf? && ns[tail].kind.Leaf?
    ensures ns[head].kind.next == order[0] && ns[tail].kind.previous == order[|order| - 1]
    ensures 0 <= order[0] < |ns| && 0 <= order[|order| - 1] < |ns|
    ensures Least(E, ns[order[0]].element) && Greatest(E, ns[order[|order| - 1]].element)
  {
    var C := ContentsOf(ns, order);
    RunEnds(C, E);
  }

  /**
   * In a sorted run of the stored strings, when nothing up to position `k` comes after `x` and the
   * string at `k + 1` does, that string is the least one after `x`; when there is no position
   * `k + 1`, nothing comes after `x`.
   */
  lemma NextAfter(s: seq<string>, E: set<string>, x: string, k: int)
    requires StrictlySorted(s) && Members(s) == E && -1 <= k < |s|
    requires forall j :: 0 <= j <= k ==> !Before(x, s[j])
    requires k + 1 < |s| ==> Before(x, s[k + 1])
    ensures k + 1 < |s| ==> Least(Above(E, x), s[k + 1])
    ensures k + 1 == |s| ==> Above(E, x) == {}
  {
    forall e | e in Above(E, x) ensures k + 1 < |s| && (e == s[k + 1] || Before(s[k + 1], e)) {
      var j :| 0 <= j < |s| && s[j] == e;
      assert !(j <= k);
      if j > k + 1 {
        assert Before(s[k + 1], s[j]);
      }
    }
    if k + 1 < |s| {
      assert s[k + 1] in E;
    }
  }

  /** The string at `k` is `x` up to case: nothing up to `k` comes after `x`, the next string does. */
  lemma AfterMatch(s: seq<string>, x: string, k: int)
    requires StrictlySorted(s) && 0 <= k < |s| && Digits(s[k]) == Digits(x)
    ensures forall j :: 0 <= j <= k ==> !Before(x, s[j])
    ensures k + 1 < |s| ==> Before(x, s[k + 1])
  {
    forall j | 0 <= j <= k ensures !Before(x, s[j]) {
      LexLessIrreflexive(Digits(x));
      if j < k && Before(x, s[j]) {
        assert Before(s[j], s[k]);
        BeforeTransitive(x, s[j], s[k]);
      }
    }
    if k + 1 < |s| {
      assert Before(s[k], s[k + 1]);
    }
  }

  /**
   * The string at `k` is the greatest one before `x`, and `x` is not stored: nothing up to `k`
   * comes after `x`, the next string does.
   */
  lemma AfterPredecessor(s: seq<string>, E: set<string>, x: string, k: int, a: int)
    requires StrictlySorted(s) && Members(s) == E && 0 <= k < |s| && Greatest(Below(E, x), s[k])
    requires Matching(E, x) == {} && InAlphabet(x, a) && forall e :: e in E ==> InAlphabet(e, a)
    ensures forall j :: 0 <= j <= k ==> !Before(x, s[j])
    ensures k + 1 < |s| ==> Before(x, s[k + 1])
  {
    forall j | 0 <= j <= k ensures !Before(x, s[j]) {
      if j < k {
        assert Before(s[j], s[k]);
        BeforeTransitive(s[j], s[k], x);
      }
      LexLessIrreflexive(Digits(x));
      if Before(x, s[j]) {
        BeforeTransitive(x, s[j], x);
      }
    }
    if k + 1 < |s| {
      var n := s[k + 1];
      assert n in E && n !in Matching(E, x);
      assert Before(s[k], n);
      if Before(n, x) {
        assert n in Below(E, x);
        LexLessIrreflexive(Digits(n));
        if n != s[k] {
          BeforeTransitive(n, s[k], n);
        }
      }
      BeforeTotal(a, x, n);
    }
  }

  /** Nothing stored comes before `x`, and `x` is not stored: the first string comes after `x`. */
  lemma AfterNothing(s: seq<string>, E: set<string>, x: string, a: int)
    requires Members(s) == E && Below(E, x) == {} && Matching(E, x) == {}
    requires InAlphabet(x, a) && forall e :: e in E ==> InAlphabet(e, a)
    ensures 0 < |s| ==> Before(x, s[0])
  {
    if 0 < |s| {
      assert s[0] in E && s[0] !in Below(E, x) && s[0] !in Matching(E, x);
      BeforeTotal(a, x, s[0]);
    }
  }

  /**
   * The neighbour `successor` reads as written: with `x` not stored and nothing before it, the
   * search keeps the tail, though a string after `x` may be stored. For {"b"} and "a": "b" comes
   * after "a", and neither "a" nor anything before it is stored.
   */
  lemma SuccessorAsWrittenMissesFirst()
    ensures Above({"b"}, "a") == {"b"}
    ensures Matching({"b"}, "a") == {} && Below({"b"}, "a") == {}
  {
    assert Digits("a") == [1, 0] && Digits("b") == [2, 0];
    assert LessAt(Digits("a"), Digits("b"), 0);
    BeforeIrreflexive("b");
    if Before("b", "a") {
      BeforeTransitive("b", "a", "b");
    }
  }

  // ---------------------------------------------------------------------------------------
  // Prefixes
  // ---------------------------------------------------------------------------------------

  /** `now` is `before` followed by a sorted run of exactly the strings of `S`. */
  ghost predicate Appended(before: seq<string>, now: seq<string>, S: set<string>)
  {
    |before| <= |now| && now[..|before|] == before && StrictlySorted(now[|before|..]) && Members(now[|before|..]) == S
  }

  lemma AppendedOf(before: seq<string>, s: seq<string>, S: set<string>)
    requires StrictlySorted(s) && Members(s) == S
    ensures Appended(before, before + s, S)
  {
    assert (before + s)[..|before|] == before && (before + s)[|before|..] == s;
  }

  /**
   * The subtree at the first `k` digits of `x` holds exactly the stored strings that start, up to
   * case, with the first `k` characters of `x`.
   */
  lemma SubIsWithPrefix(E: set<string>, x: string, k: int, a: int)
    requires (forall e :: e in E ==> InAlphabet(e, a)) && InAlphabet(x, a) && 0 <= k <= |x|
    ensures Sub(E, Digits(x)[..k]) == WithPrefix(E, x[..k])
  {
    var p := Digits(x)[..k];
    assert LowerString(x[..k]) == LowerString(x)[..k];
    forall e | e in E
      ensures IsPrefix(p, Digits(e)) <==> |e| >= k && LowerString(e)[..k] == LowerString(x)[..k]
    {
      if |e| < k {
        DigitsInRange(a, x, |e|);
        DigitsInRange(a, e, |e|);
        assert p[|e|] != Digits(e)[|e|];
      } else {
        DigitPrefixAgree(a, e, x, k);
      }
    }
  }

  /** Every stored string starts with the empty prefix. */
  lemma WithEmptyPrefix(E: set<string>, x: string)
    ensures WithPrefix(E, x[..0]) == E
  {
    assert LowerString(x[..0]) == [];
    forall e | e in E ensures LowerString(e)[..0] == [] {
    }
  }

  /**
   * The length of the longest prefix of `x` that, up to case, a stored string starts with: `x`
   * itself if some stored string starts with it, and 0 when nothing is stored.
   */
  ghost function SharedPrefixLength(E: set<string>, x: string): (n: nat)
    ensures n <= |x|
    ensures E != {} ==> WithPrefix(E, x[..n]) != {}
    ensures forall k :: n < k <= |x| ==> WithPrefix(E, x[..k]) == {}
  {
    SharedPrefixUpTo(E, x, |x|)
  }

  /** The longest prefix of `x` of at most `k` characters that a stored string starts with. */
  ghost function SharedPrefixUpTo(E: set<string>, x: string, k: nat): (n: nat)
    requires k <= |x|
    ensures n <= k
    ensures E != {} ==> WithPrefix(E, x[..n]) != {}
    ensures forall j :: n < j <= k ==> WithPrefix(E, x[..j]) == {}
    decreases k
  {
    if k == 0 then
      WithEmptyPrefix(E, x);
      0
    else if WithPrefix(E, x[..k]) != {} then k
    else SharedPrefixUpTo(E, x, k - 1)
  }

  /** A prefix length that some stored string reaches and no longer prefix does is the shared prefix length. */
  lemma SharedPrefixLengthIs(E: set<string>, x: string, n: int)
    requires 0 <= n <= |x| && WithPrefix(E, x[..n]) != {}
    requires forall k :: n < k <= |x| ==> WithPrefix(E, x[..k]) == {}
    ensures SharedPrefixLength(E, x) == n
  {
    var e :| e in WithPrefix(E, x[..n]);
    assert e in E;
  }

  /**
   * Where a search for `x` stops, at a path `p` of the digits of `x` with no node for the next
   * digit when `p` is shorter than `x`: the subtree at `p` holds exactly the strings starting with
   * the first `|p|` characters of `x`, and when `p` is shorter than `x` nothing starts with `x`.
   */
  lemma SearchEndSubtreeOn(v: View, x: string, p: seq<int>)
    requires Shaped(v, []) && (forall e :: e in v.elements ==> InAlphabet(e, v.capacity - 1))
    requires InAlphabet(x, v.capacity - 1) && IsPrefix(p, Digits(x)) && |p| <= |x|
    requires |p| < |x| ==> Digits(x)[..|p| + 1] !in v.nodeAt
    ensures Sub(v.elements, p) == WithPrefix(v.elements, x[..|p|])
    ensures |p| == |x| ==> Sub(v.elements, p) == WithPrefix(v.elements, x)
    ensures |p| < |x| ==> WithPrefix(v.elements, x) == {}
  {
    var E, a := v.elements, v.capacity - 1;
    assert p == Digits(x)[..|p|];
    SubIsWithPrefix(E, x, |p|, a);
    assert x[..|x|] == x;
    if |p| < |x| {
      SubIsWithPrefix(E, x, |x|, a);
      SubMonotone(E, Digits(x)[..|p| + 1], Digits(x)[..|x|]);
    }
  }

  /** The subtree where a search for `x` stops holds the strings sharing the longest prefix with `x`. */
  lemma SearchEndSharedOn(v: View, x: string, p: seq<int>)
    requires Shaped(v, []) && (forall e :: e in v.elements ==> InAlphabet(e, v.capacity - 1))
    requires InAlphabet(x, v.capacity - 1) && IsPrefix(p, Digits(x)) && |p| <= |x|
    requires |p| < |x| ==> Digits(x)[..|p| + 1] !in v.nodeAt
    requires p in v.nodeAt && v.elements != {}
    ensures Sub(v.elements, p) == WithPrefix(v.elements, x[..SharedPrefixLength(v.elements, x)])
  {
    var E, a := v.elements, v.capacity - 1;
    SearchEndSubtreeOn(v, x, p);
    assert Sub(E, p) != {} by {
      if p == [] {
        var e :| e in E;
        assert e in Sub(E, p);
      }
    }
    forall k | |p| < k <= |x| ensures WithPrefix(E, x[..k]) == {} {
      SubIsWithPrefix(E, x, k, a);
      SubMonotone(E, Digits(x)[..|p| + 1], Digits(x)[..k]);
    }
    SharedPrefixLengthIs(E, x, |p|);
  }

  /** A search for `x` stops at the root exactly when no stored string has the first digit of `x`. */
  lemma StopsAtRootOn(v: View, x: string, p: seq<int>)
    requires Shaped(v, []) && v.elements != {} && p in v.nodeAt && IsPrefix(p, Digits(x))
    requires |p| < |Digits(x)| ==> Digits(x)[..|p| + 1] !in v.nodeAt
    ensures p == [] <==> Sub(v.elements, Digits(x)[..1]) == {}
  {
    if p != [] {
      assert Sub(v.elements, p) != {};
      SubMonotone(v.elements, Digits(x)[..1], p);
    }
  }

  /**
   * `completions` and `longestCommonPrefix` as written look at the parent of the node the search
   * stops at, which fails at the root: for {"ab"}, the empty prefix has no first digit below the
   * root, yet every stored string starts with it, and "b" shares the empty prefix with "ab".
   */
  lemma PrefixQueriesAsWrittenMissRoot()
    ensures Sub({"ab"}, Digits("")[..1]) == {} && WithPrefix({"ab"}, "") == {"ab"}
    ensures Sub({"ab"}, Digits("b")[..1]) == {} && SharedPrefixLength({"ab"}, "b") == 0
    ensures WithPrefix({"ab"}, "b"[..0]) == {"ab"}
  {
    assert Digits("ab") == [1, 2, 0] && Digits("") == [0] && Digits("b") == [2, 0];
    assert !IsPrefix([0], Digits("ab")) && !IsPrefix([2], Digits("ab"));
    WithEmptyPrefix({"ab"}, "");
    WithEmptyPrefix({"ab"}, "b");
    assert LowerString("ab")[..1] == "a" && LowerString("b") == "b";
    assert "b"[..1] == "b";
    assert WithPrefix({"ab"}, "b"[..1]) == {};
  }
}
