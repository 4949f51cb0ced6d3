/**
 * The slice-backed list: a sequence of elements changed in place by appending, prepending,
 * inserting and removing, with first-occurrence search and the functional Filter and Map.
 */
module Lists {
  import opened Wrappers

  /** The index reported when a search finds nothing. */
  const ElementNotFound := -1

  datatype ListError = IndexOutOfBounds(size: int, index: int) | ErrorElementNotFound

  /** What an indexed read does: returns a value, reports an error, or indexes past the slice and panics. */
  datatype Access<T> = Value(value: T) | Rejected(error: ListError) | IndexPanic

  /** The elements of `s` satisfying `p`, in their order in `s`. */
  function FilterSeq<T>(s: seq<T>, p: T -> bool): seq<T>
  {
    if s == [] then [] else FilterSeq(s[..|s| - 1], p) + (if p(s[|s| - 1]) then [s[|s| - 1]] else [])
  }

  /** The position of the first occurrence of `e` in `s`, or ElementNotFound. */
  function FirstIndexOf<T(==)>(s: seq<T>, e: T): (k: int)
    ensures k == ElementNotFound <==> e !in s
    ensures k != ElementNotFound ==> 0 <= k < |s| && s[k] == e && e !in s[..k]
  {
    if s == [] then ElementNotFound
    else if s[0] == e then 0
    else
      var k := FirstIndexOf(s[1..], e);
      if k == ElementNotFound then ElementNotFound
      else
        assert s[..k + 1] == [s[0]] + s[1..][..k];
        k + 1
  }

  /** `checkBounds` as written: it admits every index from 0 to the size inclusive. */
  function CheckBounds(index: int, size: int): (err: Option<ListError>)
    ensures err.None? <==> 0 <= index <= size
  {
    if index < 0 || index > size then Some(IndexOutOfBounds(size, index)) else None
  }

  /** `ValueWithIndex` as written: the bounds test lets `index == size` through to the slice access. */
  function ValueWithIndexAsWritten<T>(elements: seq<T>, index: int): (r: Access<T>)
    ensures r.IndexPanic? <==> index == |elements|
    ensures r.Value? <==> 0 <= index < |elements|
    ensures r.Value? ==> r.value == elements[index]
  {
    match CheckBounds(index, |elements|)
    case Some(e) => Rejected(e)
    case None => if index < |elements| then Value(elements[index]) else IndexPanic
  }

  /** Reading (and so removing) at index `Size()` panics instead of returning the bounds error. */
  lemma ValueWithIndexAsWrittenPanicsAtSize<T>(elements: seq<T>)
    ensures ValueWithIndexAsWritten(elements, |elements|) == IndexPanic
  {
  }

  // ---------------------------------------------------------------------------------------
  // Filter, the partner properties
  // ---------------------------------------------------------------------------------------

  /** Filtering distributes over concatenation, so the kept elements stay in their original order. */
  lemma {:induction false} FilterSeqAppend<T>(s: seq<T>, t: seq<T>, p: T -> bool)
    ensures FilterSeq(s + t, p) == FilterSeq(s, p) + FilterSeq(t, p)
  {
    if t == [] {
      assert s + t == s;
    } else {
      assert (s + t)[..|s + t| - 1] == s + t[..|t| - 1];
      FilterSeqAppend(s, t[..|t| - 1], p);
    }
  }

  /** An element is kept exactly when it occurs and satisfies the predicate. */
  lemma {:induction false} FilterSeqMembers<T>(s: seq<T>, p: T -> bool, x: T)
    ensures x in FilterSeq(s, p) <==> x in s && p(x)
  {
    if s != [] {
      FilterSeqMembers(s[..|s| - 1], p, x);
      assert s == s[..|s| - 1] + [s[|s| - 1]];
    }
  }

  /** Filtering never lengthens, and keeps everything exactly when every element satisfies the predicate. */
  lemma {:induction false} FilterSeqLength<T>(s: seq<T>, p: T -> bool)
    ensures |FilterSeq(s, p)| <= |s|
    ensures |FilterSeq(s, p)| == |s| <==> forall i :: 0 <= i < |s| ==> p(s[i])
  {
    if s != [] {
      FilterSeqLength(s[..|s| - 1], p);
      assert forall i :: 0 <= i < |s| - 1 ==> s[..|s| - 1][i] == s[i];
    }
  }

  class ArrayList<T(==)> {
    var elements: seq<T>

    /** An empty list. */
    constructor ()
      ensures elements == []
    {
      elements := [];
    }

    /** A list holding `values`, built by adding them one by one. */
    static method Of(values: seq<T>) returns (l: ArrayList<T>)
      ensures fresh(l) && l.elements == values
    {
      l := new ArrayList();
      var i := 0;
      while i < |values|
        invariant 0 <= i <= |values|
        invariant l.elements == values[..i]
      {
        var _ := l.Add(values[i]);
        assert values[..i + 1] == values[..i] + [values[i]];
        i := i + 1;
      }
    }

    /** A list holding the values of another list, or an empty one for a nil list. */
    static method From(c: ArrayList?<T>) returns (l: ArrayList<T>)
      ensures fresh(l) && l.elements == (if c == null then [] else c.elements)
    {
      var values := if c == null then [] else c.Values();
      l := Of(values);
    }

    function Size(): (n: int)
      reads this
      ensures n == |elements|
    {
      |elements|
    }

    predicate IsEmpty()
      reads this
    {
      Size() == 0
    }

    /** A copy of the elements, in order. */
    function Values(): seq<T>
      reads this
    {
      elements
    }

    /** Appends; never fails. */
    method Add(element: T) returns (err: Option<ListError>)
      modifies this
      ensures elements == old(elements) + [element] && err == None
    {
      elements := elements + [element];
      err := None;
    }

    /** Appends the values of `c` (nothing for a nil list); never fails. */
    method AddAll(c: ArrayList?<T>) returns (err: Option<ListError>)
      modifies this
      ensures elements == old(elements) + (if c == null then [] else old(c.elements)) && err == None
    {
      if c != null {
        elements := elements + c.Values();
      }
      err := None;
    }

    /** Prepends: the element goes to index 0 and every old element moves up by one. */
    method AddFirst(element: T) returns (err: Option<ListError>)
      modifies this
      ensures elements == [element] + old(elements) && err == None
      ensures forall i :: 0 <= i < |old(elements)| ==> elements[i + 1] == old(elements)[i]
    {
      elements := [element] + elements;
      err := None;
    }

    method AddLast(element: T) returns (err: Option<ListError>)
      modifies this
      ensures elements == old(elements) + [element] && err == None
    {
      err := Add(element);
    }

    /**
     * Inserts at `index`, shifting the elements from `index` on up by one. Any index outside
     * [0, Size()] is an error and changes nothing.
     */
    method AddWithIndex(index: int, element: T) returns (err: Option<ListError>)
      modifies this
      ensures 0 <= index <= |old(elements)| ==>
                err == None && elements == old(elements)[..index] + [element] + old(elements)[index..]
      ensures !(0 <= index <= |old(elements)|) ==>
                err == Some(IndexOutOfBounds(|old(elements)|, index)) && elements == old(elements)
    {
      err := CheckBounds(index, |elements|);
      if err.Some? {
        return;
      }
      elements := elements[..index] + [element] + elements[index..];
    }

    /** The element at `index`, or a bounds error for an index outside [0, Size()). */
    function ValueWithIndex(index: int): (r: Result<T, ListError>)
      reads this
      ensures r.Success? <==> 0 <= index < |elements|
      ensures r.Success? ==> r.value == elements[index]
      ensures r.Failure? ==> r.error == IndexOutOfBounds(|elements|, index)
    {
      if 0 <= index < |elements| then Success(elements[index])
      else Failure(IndexOutOfBounds(|elements|, index))
    }

    /** The position of the first element equal to `element`, found by scanning from the front. */
    method IndexOf(element: T) returns (i: int, err: Option<ListError>)
      ensures i == FirstIndexOf(elements, element)
      ensures err.Some? <==> element !in elements
      ensures err.Some? ==> i == ElementNotFound && err == Some(ErrorElementNotFound)
      ensures err.None? ==> 0 <= i < |elements| && elements[i] == element && element !in elements[..i]
    {
      i := 0;
      while i < |elements|
        invariant 0 <= i <= |elements|
        invariant element !in elements[..i]
      {
        if elements[i] == element {
          return i, None;
        }
        assert elements[..i + 1] == elements[..i] + [elements[i]];
        i := i + 1;
      }
      assert elements[..i] == elements;
      return ElementNotFound, Some(ErrorElementNotFound);
    }

    method Contains(element: T) returns (b: bool)
      ensures b <==> element in elements
    {
      var index, err := IndexOf(element);
      b := err.None? && index != ElementNotFound;
    }

    /**
     * Removes the element at `index` and returns it, shifting the later elements down by one; an
     * index outside [0, Size()) is an error and changes nothing.
     */
    method RemoveWithIndex(index: int) returns (r: Result<T, ListError>)
      modifies this
      ensures r == old(ValueWithIndex(index))
      ensures r.Success? ==> elements == old(elements)[..index] + old(elements)[index + 1..]
      ensures r.Failure? ==> elements == old(elements)
    {
      r := ValueWithIndex(index);
      if r.Failure? {
        return;
      }
      elements := elements[..index] + elements[index + 1..];
    }

    /**
     * `RemoveWithIndex` as written: its read goes through the bounds test that admits
     * `index == Size()`, so there it panics before anything changes.
     */
    method RemoveWithIndexAsWritten(index: int) returns (r: Access<T>)
      modifies this
      ensures r == ValueWithIndexAsWritten(old(elements), index)
      ensures r.Value? ==> elements == old(elements)[..index] + old(elements)[index + 1..]
      ensures !r.Value? ==> elements == old(elements)
    {
      r := ValueWithIndexAsWritten(elements, index);
      if !r.Value? {
        return;
      }
      elements := elements[..index] + elements[index + 1..];
    }

    /** Except at `index == Size()`, the read as written agrees with the corrected `ValueWithIndex`. */
    lemma ValueWithIndexAsWrittenAgrees(index: int)
      requires index != |elements|
      ensures ValueWithIndex(index).Success? ==> ValueWithIndexAsWritten(elements, index) == Value(ValueWithIndex(index).value)
      ensures ValueWithIndex(index).Failure? ==> ValueWithIndexAsWritten(elements, index) == Rejected(ValueWithIndex(index).error)
    {
    }

    /** Removes the first occurrence of `element`; true exactly when there was one. */
    method Remove(element: T) returns (removed: bool)
      modifies this
      ensures removed <==> element in old(elements)
      ensures var k := FirstIndexOf(old(elements), element);
              removed ==> elements == old(elements)[..k] + old(elements)[k + 1..]
      ensures !removed ==> elements == old(elements)
    {
      var found := Contains(element);
      if found {
        var i, _ := IndexOf(element);
        var r := RemoveWithIndex(i);
        if r.Failure? {
          return false;
        }
        return true;
      }
      return false;
    }

    /** Removes and returns the first element; nothing (nil) for an empty list. */
    method RemoveFirst() returns (r: Option<T>)
      modifies this
      ensures old(elements) == [] ==> r == None && elements == []
      ensures old(elements) != [] ==> r == Some(old(elements)[0]) && elements == old(elements)[1..]
    {
      if Size() > 0 {
        var v := RemoveWithIndex(0);
        return Some(v.value);
      }
      return None;
    }

    /** Removes and returns the last element; nothing (nil) for an empty list. */
    method RemoveLast() returns (r: Option<T>)
      modifies this
      ensures old(elements) == [] ==> r == None && elements == []
      ensures old(elements) != [] ==>
                r == Some(old(elements)[|old(elements)| - 1]) && elements == old(elements)[..|old(elements)| - 1]
    {
      if Size() > 0 {
        var v := RemoveWithIndex(Size() - 1);
        return Some(v.value);
      }
      return None;
    }

    method Clear()
      modifies this
      ensures elements == []
    {
      elements := elements[..0];
    }

    /** A new list of the elements satisfying `p`, in order; this list is unchanged. */
    method Filter(p: T -> bool) returns (l: ArrayList<T>)
      ensures fresh(l) && l.elements == FilterSeq(elements, p)
    {
      l := new ArrayList();
      var i := 0;
      while i < |elements|
        invariant 0 <= i <= |elements|
        invariant l.elements == FilterSeq(elements[..i], p)
      {
        assert elements[..i + 1][..i] == elements[..i];
        if p(elements[i]) {
          var _ := l.Add(elements[i]);
        }
        i := i + 1;
      }
      assert elements[..i] == elements;
    }

    /** A new list of the images under `f`, position by position; this list is unchanged. */
    method Map<U>(f: T -> U) returns (l: ArrayList<U>)
      ensures fresh(l) && |l.elements| == |elements|
      ensures forall i :: 0 <= i < |elements| ==> l.elements[i] == f(elements[i])
    {
      l := new ArrayList();
      var i := 0;
      while i < |elements|
        invariant 0 <= i <= |elements|
        invariant |l.elements| == i
        invariant forall j :: 0 <= j < i ==> l.elements[j] == f(elements[j])
      {
        var _ := l.Add(f(elements[i]));
        i := i + 1;
      }
    }
  }

  /** Removing an element that was present removes one occurrence: a second removal of a unique element finds nothing. */
  lemma RemoveOnceThenAbsent<T>(s: seq<T>, e: T)
    requires multiset(s)[e] == 1
    ensures var k := FirstIndexOf(s, e); e !in s[..k] + s[k + 1..]
  {
    var k := FirstIndexOf(s, e);
    assert s == s[..k] + [s[k]] + s[k + 1..];
    assert multiset(s) == multiset(s[..k]) + multiset{e} + multiset(s[k + 1..]);
  }
}
