/**
 * The string digitizer of the trie: it maps a string of n characters to n + 1 digits,
 * the 1-based, case-insensitive letter index of each character followed by the digit 0,
 * which marks the end of the string and makes the set of digit sequences prefix-free.
 */
module Digitizer {

  /** A digitizer for strings over an alphabet of `base - 1` letters. */
  datatype StringDigitizer = StringDigitizer(base: int) {

    /** The number of distinct digits, the end-of-string digit included. */
    function Base(): int { base }

    /** The string digitizer always reserves digit 0 for the end of the string. */
    predicate IsPrefixFree() { true }

    /** The number of digits of `s`, the end-of-string digit included. */
    function NumDigitsOf(s: string): int { |s| + 1 }

    /** The digit of `s` at `place`: 0 at or past the end, else the letter index of the character. */
    function DigitOf(s: string, place: nat): int
    {
      if place >= |s| then 0 else CharDigit(s[place])
    }

    /** The display form of the digit at `place`: "#" for the end of the string, else the lower-cased character. */
    function FormatDigit(s: string, place: nat): string
    {
      if place >= |s| then "#" else [Lower(s[place])]
    }
  }

  /** The digitizer of a trie whose alphabet has `alphabetSize` letters. */
  function NewStringDigitizer(alphabetSize: int): (d: StringDigitizer)
    ensures d.Base() - 1 == alphabetSize
  {
    StringDigitizer(alphabetSize + 1)
  }

  /** ASCII lower-casing, the only case mapping that applies to the alphabet. */
  function Lower(c: char): char
  {
    if 'A' <= c <= 'Z' then (c as int + 32) as char else c
  }

  /**
   * The letter index of one character: the byte `lower(c) - 'a' + 1`, which wraps modulo 256
   * for characters below 'a'.
   */
  function CharDigit(c: char): int
  {
    (Lower(c) as int - 'a' as int + 1) % 256
  }

  /** `s` with every character lower-cased. */
  function LowerString(s: string): (t: string)
    ensures |t| == |s| && forall i :: 0 <= i < |s| ==> t[i] == Lower(s[i])
  {
    seq(|s|, i requires 0 <= i < |s| => Lower(s[i]))
  }

  /**
   * Every character of `s` is, once lower-cased, one of the first `alphabetSize` letters: upper
   * and lower case letters both belong to the alphabet.
   */
  predicate InAlphabet(s: string, alphabetSize: int)
  {
    forall i :: 0 <= i < |s| ==> 'a' <= Lower(s[i]) <= 'z' && Lower(s[i]) as int - 'a' as int < alphabetSize
  }

  /** The digit sequence of `s`: `DigitOf(s, p)` for every place `p` up to and including `|s|`. */
  function Digits(s: string): (ds: seq<int>)
    ensures |ds| == StringDigitizer(0).NumDigitsOf(s)
    ensures ds[|s|] == 0
    ensures forall p :: 0 <= p < |ds| ==> ds[p] == StringDigitizer(0).DigitOf(s, p)
  {
    seq(|s| + 1, p requires 0 <= p <= |s| => StringDigitizer(0).DigitOf(s, p))
  }

  /** `p` is a (not necessarily proper) prefix of `q`. */
  predicate IsPrefix(p: seq<int>, q: seq<int>)
  {
    |p| <= |q| && q[..|p|] == p
  }

  /** `a` and `b` agree before index `i`, and `a` has the smaller digit at `i`. */
  predicate LessAt(a: seq<int>, b: seq<int>, i: int)
  {
    0 <= i < |a| && i < |b| && a[..i] == b[..i] && a[i] < b[i]
  }

  /** Lexicographic order on digit sequences, at a position where both have a digit. */
  ghost predicate LexLess(a: seq<int>, b: seq<int>)
  {
    exists i :: LessAt(a, b, i)
  }

  /** `a` comes before `b` in the order of their digit sequences: the trie's iteration order. */
  ghost predicate Before(a: string, b: string)
  {
    LexLess(Digits(a), Digits(b))
  }

  /** Standard lexicographic order on strings: a proper prefix, or a smaller character at the first difference. */
  ghost predicate StringLess(a: string, b: string)
  {
    (|a| < |b| && b[..|a|] == a) ||
    exists i :: 0 <= i < |a| && i < |b| && a[..i] == b[..i] && a[i] < b[i]
  }

  // ---------------------------------------------------------------------------------------
  // Properties of single digits
  // ---------------------------------------------------------------------------------------

  /** Digit 0 is reserved: a letter of the alphabet has a digit in [1, Base() - 1]. */
  lemma LetterDigitInRange(d: StringDigitizer, alphabetSize: int, s: string, place: nat)
    requires d == NewStringDigitizer(alphabetSize)
    requires InAlphabet(s, alphabetSize) && place < |s|
    ensures 1 <= d.DigitOf(s, place) <= d.Base() - 1
  {
  }

  /** The digit sequence of a string in the alphabet stays within [0, Base() - 1]. */
  lemma DigitsInRange(alphabetSize: int, s: string, p: nat)
    requires InAlphabet(s, alphabetSize) && p < |Digits(s)|
    ensures p < |s| ==> 1 <= Digits(s)[p] <= alphabetSize
    ensures Digits(s)[p] == 0 <==> p == |s|
  {
  }

  /** Upper and lower case give the same digit. */
  lemma DigitOfIgnoresCase(d: StringDigitizer, s: string, t: string, place: nat)
    requires |s| == |t| && forall i :: 0 <= i < |s| ==> Lower(s[i]) == Lower(t[i])
    ensures d.DigitOf(s, place) == d.DigitOf(t, place)
  {
  }

  /**
   * The end-of-string marker is displayed as "#" exactly at and past the end of a string in the
   * alphabet; every other digit is displayed as a lower-case letter of the alphabet.
   */
  lemma FormatDigitMarksEnd(d: StringDigitizer, alphabetSize: int, s: string, place: nat)
    requires InAlphabet(s, alphabetSize)
    ensures d.FormatDigit(s, place) == "#" <==> place >= |s|
    ensures place < |s| ==> |d.FormatDigit(s, place)| == 1 && 'a' <= d.FormatDigit(s, place)[0] <= 'z'
    ensures place < |s| ==> d.DigitOf(s, place) == d.FormatDigit(s, place)[0] as int - 'a' as int + 1
  {
  }

  /** Two strings in the alphabet agree on a digit exactly when they agree on the lower-cased character. */
  lemma DigitsAgree(alphabetSize: int, a: string, b: string, i: nat)
    requires InAlphabet(a, alphabetSize) && InAlphabet(b, alphabetSize)
    requires i < |a| && i < |b|
    ensures Digits(a)[i] == Digits(b)[i] <==> Lower(a[i]) == Lower(b[i])
    ensures Digits(a)[i] < Digits(b)[i] <==> Lower(a[i]) < Lower(b[i])
  {
  }

  /** Agreement on a prefix of the digit sequences is agreement on the same prefix of the lower-cased strings. */
  lemma {:induction false} DigitPrefixAgree(alphabetSize: int, a: string, b: string, i: nat)
    requires InAlphabet(a, alphabetSize) && InAlphabet(b, alphabetSize)
    requires i <= |a| && i <= |b|
    ensures Digits(a)[..i] == Digits(b)[..i] <==> LowerString(a)[..i] == LowerString(b)[..i]
  {
    var la, lb := LowerString(a), LowerString(b);
    if Digits(a)[..i] == Digits(b)[..i] {
      forall k | 0 <= k < i ensures la[k] == lb[k] {
        assert Digits(a)[k] == Digits(a)[..i][k];
        DigitsAgree(alphabetSize, a, b, k);
      }
    }
    if la[..i] == lb[..i] {
      forall k | 0 <= k < i ensures Digits(a)[k] == Digits(b)[k] {
        assert la[k] == la[..i][k];
        DigitsAgree(alphabetSize, a, b, k);
      }
    }
  }

  // ---------------------------------------------------------------------------------------
  // Prefix-freedom and injectivity
  // ---------------------------------------------------------------------------------------

  /**
   * The digitizer is prefix-free: the digit sequence of one string in the alphabet is a prefix of
   * another's only when the two are the same, because digit 0 occurs only at the end.
   */
  lemma PrefixFree(alphabetSize: int, a: string, b: string)
    requires InAlphabet(a, alphabetSize) && InAlphabet(b, alphabetSize)
    requires IsPrefix(Digits(a), Digits(b))
    ensures Digits(a) == Digits(b)
  {
    DigitsInRange(alphabetSize, b, |a|);
  }

  /** Two strings in the alphabet have the same digit sequence exactly when they are equal up to case. */
  lemma DigitsEqualIffSameLower(alphabetSize: int, a: string, b: string)
    requires InAlphabet(a, alphabetSize) && InAlphabet(b, alphabetSize)
    ensures Digits(a) == Digits(b) <==> LowerString(a) == LowerString(b)
  {
    if Digits(a) == Digits(b) {
      DigitPrefixAgree(alphabetSize, a, b, |a|);
      assert LowerString(a) == LowerString(a)[..|a|];
      assert LowerString(b) == LowerString(b)[..|b|];
    }
    if LowerString(a) == LowerString(b) {
      forall i | 0 <= i < |Digits(a)| ensures Digits(a)[i] == Digits(b)[i] {
        if i < |a| {
          DigitsAgree(alphabetSize, a, b, i);
        }
      }
    }
  }

  /**
   * If `s` is, up to case, a proper prefix of `t`, their digit sequences first differ at `|s|`,
   * where `s` has 0.
   */
  lemma ProperPrefixDiverges(alphabetSize: int, s: string, t: string)
    requires InAlphabet(s, alphabetSize) && InAlphabet(t, alphabetSize)
    requires |s| < |t| && LowerString(t)[..|s|] == LowerString(s)
    ensures Digits(s)[..|s|] == Digits(t)[..|s|]
    ensures Digits(s)[|s|] == 0 < Digits(t)[|s|]
    ensures LessAt(Digits(s), Digits(t), |s|)
  {
    assert LowerString(s)[..|s|] == LowerString(s);
    DigitPrefixAgree(alphabetSize, s, t, |s|);
    DigitsInRange(alphabetSize, t, |s|);
  }

  // ---------------------------------------------------------------------------------------
  // The digit order
  // ---------------------------------------------------------------------------------------

  lemma LexLessIrreflexive(a: seq<int>)
    ensures !LexLess(a, a)
  {
  }

  lemma LexLessTransitive(a: seq<int>, b: seq<int>, c: seq<int>)
    requires LexLess(a, b) && LexLess(b, c)
    ensures LexLess(a, c)
  {
    var i :| LessAt(a, b, i);
    var j :| LessAt(b, c, j);
    if i < j {
      assert b[..j][..i] == b[..i];
      assert c[..j][..i] == c[..i];
      assert LessAt(a, c, i);
    } else if j < i {
      assert a[..i][..j] == a[..j];
      assert b[..i][..j] == b[..j];
      assert a[..i][j] == a[j];
      assert LessAt(a, c, j);
    } else {
      assert LessAt(a, c, i);
    }
  }

  /** Where two sequences first differ, the smaller one has the smaller digit. */
  lemma LexLessAtDifference(a: seq<int>, b: seq<int>, k: int)
    requires 0 <= k < |a| && k < |b| && a[..k] == b[..k] && a[k] != b[k] && LexLess(a, b)
    ensures a[k] < b[k]
  {
    var j :| LessAt(a, b, j);
    assert forall i :: 0 <= i < j ==> a[i] == a[..j][i] == b[..j][i] == b[i];
    assert forall i :: 0 <= i < k ==> a[i] == a[..k][i] == b[..k][i] == b[i];
    assert j == k;
  }

  /** A sequence below a prefix is below every extension of that prefix. */
  lemma LexLessExtend(a: seq<int>, p: seq<int>, q: seq<int>)
    requires LexLess(a, p) && IsPrefix(p, q)
    ensures LexLess(a, q)
  {
    var i :| LessAt(a, p, i);
    assert q[..|p|][..i] == q[..i];
    assert q[i] == q[..|p|][i];
    assert LessAt(a, q, i);
  }

  /** Extensions of two prefixes inherit the order of the prefixes. */
  lemma LexLessExtendBoth(p: seq<int>, q: seq<int>, a: seq<int>, b: seq<int>)
    requires LexLess(p, q) && IsPrefix(p, a) && IsPrefix(q, b)
    ensures LexLess(a, b)
  {
    var i :| LessAt(p, q, i);
    assert a[..|p|][..i] == a[..i];
    assert b[..|q|][..i] == b[..i];
    assert a[i] == a[..|p|][i];
    assert b[i] == b[..|q|][i];
    assert LessAt(a, b, i);
  }

  /** Of two digit sequences, one is a prefix of the other or they are ordered one way or the other. */
  lemma {:induction false} LexCompare(a: seq<int>, b: seq<int>)
    ensures IsPrefix(a, b) || IsPrefix(b, a) || LexLess(a, b) || LexLess(b, a)
  {
    var i := 0;
    while i < |a| && i < |b| && a[i] == b[i]
      invariant 0 <= i <= |a| && i <= |b|
      invariant a[..i] == b[..i]
    {
      assert a[..i + 1] == a[..i] + [a[i]];
      assert b[..i + 1] == b[..i] + [b[i]];
      i := i + 1;
    }
    if i == |a| {
      assert IsPrefix(a, b);
    } else if i == |b| {
      assert IsPrefix(b, a);
    } else if a[i] < b[i] {
      assert LessAt(a, b, i);
    } else {
      assert LessAt(b, a, i);
    }
  }

  lemma BeforeIrreflexive(a: string)
    ensures !Before(a, a)
  {
    LexLessIrreflexive(Digits(a));
  }

  lemma BeforeTransitive(a: string, b: string, c: string)
    requires Before(a, b) && Before(b, c)
    ensures Before(a, c)
  {
    LexLessTransitive(Digits(a), Digits(b), Digits(c));
  }

  /** The digit order is a strict total order on the digit sequences of strings in the alphabet. */
  lemma BeforeTotal(alphabetSize: int, a: string, b: string)
    requires InAlphabet(a, alphabetSize) && InAlphabet(b, alphabetSize)
    requires Digits(a) != Digits(b)
    ensures Before(a, b) || Before(b, a)
  {
    if IsPrefix(Digits(a), Digits(b)) {
      PrefixFree(alphabetSize, a, b);
    }
    if IsPrefix(Digits(b), Digits(a)) {
      PrefixFree(alphabetSize, b, a);
    }
    LexCompare(Digits(a), Digits(b));
  }

  /**
   * For strings in the alphabet the trie's digit order is the standard string order of the
   * lower-cased strings.
   */
  lemma BeforeIsStringOrder(alphabetSize: int, a: string, b: string)
    requires InAlphabet(a, alphabetSize) && InAlphabet(b, alphabetSize)
    ensures Before(a, b) <==> StringLess(LowerString(a), LowerString(b))
  {
    var da, db := Digits(a), Digits(b);
    var la, lb := LowerString(a), LowerString(b);
    if Before(a, b) {
      var i :| LessAt(da, db, i);
      DigitsInRange(alphabetSize, a, i);
      DigitsInRange(alphabetSize, b, i);
      DigitPrefixAgree(alphabetSize, a, b, i);
      if i == |a| {
        assert lb[..|la|] == la[..|a|] == la;
      } else {
        DigitsAgree(alphabetSize, a, b, i);
      }
    }
    if StringLess(la, lb) {
      if |la| < |lb| && lb[..|la|] == la {
        ProperPrefixDiverges(alphabetSize, a, b);
      } else {
        var i :| 0 <= i < |la| && i < |lb| && la[..i] == lb[..i] && la[i] < lb[i];
        DigitPrefixAgree(alphabetSize, a, b, i);
        DigitsAgree(alphabetSize, a, b, i);
        assert LessAt(da, db, i);
      }
    }
  }
}
