/** The median of a list of numbers, taken after sorting the list in place. */
module Utility {

  /** Ascending order, the order the numeric comparator `a - b` sorts into. */
  predicate Sorted(s: seq<int>)
  {
    forall i, j :: 0 <= i < j < |s| ==> s[i] <= s[j]
  }

  /** A lower bound of `s` and of `x` bounds every element of a sequence
      holding exactly those of `s` and `x`. */
  lemma LowerBound(lo: int, r: seq<int>, s: seq<int>, x: int)
    requires lo <= x
    requires forall k :: 0 <= k < |s| ==> lo <= s[k]
    requires multiset(r) == multiset(s) + multiset{x}
    ensures forall k :: 0 <= k < |r| ==> lo <= r[k]
  {
    forall k | 0 <= k < |r| ensures lo <= r[k] {
      assert r[k] in multiset(r);
      if r[k] != x {
        assert r[k] in multiset(s);
        var i :| 0 <= i < |s| && s[i] == r[k];
      }
    }
  }

  /** Inserts `x` before the first element that is not below it. */
  function Insert(x: int, s: seq<int>): (r: seq<int>)
  {
    if s == [] || x <= s[0] then [x] + s
    else [s[0]] + Insert(x, s[1..])
  }

  /** An element at most every element of a sorted sequence can go in front. */
  lemma SortedCons(h: int, rest: seq<int>)
    requires Sorted(rest)
    requires forall k :: 0 <= k < |rest| ==> h <= rest[k]
    ensures Sorted([h] + rest)
  {
    var r := [h] + rest;
    forall i, j | 0 <= i < j < |r| ensures r[i] <= r[j] {
      assert r[j] == rest[j - 1];
      if i > 0 {
        assert r[i] == rest[i - 1];
      }
    }
  }

  /** Inserting into a sorted sequence keeps it sorted and adds exactly `x`. */
  lemma {:induction false} InsertSorted(x: int, s: seq<int>)
    requires Sorted(s)
    ensures Sorted(Insert(x, s))
    ensures multiset(Insert(x, s)) == multiset(s) + multiset{x}
  {
    if s == [] || x <= s[0] {
      SortedCons(x, s);
    } else {
      assert s == [s[0]] + s[1..];
      SortedTail(s);
      InsertSorted(x, s[1..]);
      var rest := Insert(x, s[1..]);
      LowerBound(s[0], rest, s[1..], x);
      SortedCons(s[0], rest);
    }
  }

  /** Insertion sort: the ascending rearrangement of `s`, the specification
      of the in-place sort. */
  function SortSeq(s: seq<int>): (r: seq<int>)
  {
    if s == [] then [] else Insert(s[0], SortSeq(s[1..]))
  }

  /** The sort yields an ascending permutation of its input. */
  lemma {:induction false} SortSeqSorted(s: seq<int>)
    ensures Sorted(SortSeq(s))
    ensures multiset(SortSeq(s)) == multiset(s)
  {
    if s != [] {
      assert s == [s[0]] + s[1..];
      SortSeqSorted(s[1..]);
      InsertSorted(s[0], SortSeq(s[1..]));
    }
  }

  /** Dropping the first element keeps a sequence sorted. */
  lemma SortedTail(a: seq<int>)
    requires Sorted(a) && a != []
    ensures Sorted(a[1..])
  {
    forall p, q | 0 <= p < q < |a| - 1 ensures a[1..][p] <= a[1..][q] {
      assert a[1..][p] == a[p + 1] && a[1..][q] == a[q + 1];
    }
  }

  /** The first element of a sorted sequence is at most every element of it. */
  lemma SortedHeadLeast(a: seq<int>, x: int)
    requires Sorted(a) && x in multiset(a)
    ensures a != [] && a[0] <= x
  {
    var i :| 0 <= i < |a| && a[i] == x;
    assert a[0] <= a[i];
  }

  /** A multiset has only one ascending arrangement. */
  lemma {:induction false} SortedUnique(a: seq<int>, b: seq<int>)
    requires Sorted(a) && Sorted(b)
    requires multiset(a) == multiset(b)
    ensures a == b
  {
    if a != [] {
      assert a[0] in multiset(a);
      SortedHeadLeast(b, a[0]);
      assert b[0] in multiset(b);
      SortedHeadLeast(a, b[0]);
      assert a[0] == b[0];
      assert a == [a[0]] + a[1..] && b == [b[0]] + b[1..];
      assert multiset(a[1..]) == multiset(a) - multiset{a[0]};
      assert multiset(b[1..]) == multiset(b) - multiset{b[0]};
      SortedTail(a);
      SortedTail(b);
      SortedUnique(a[1..], b[1..]);
    } else {
      assert |b| == |multiset(b)| == 0;
    }
  }

  /** The middle of a sorted, non-empty sequence: the element at n/2 for odd
      length n, the mean of the elements at n/2 - 1 and n/2 for even length. */
  function Middle(s: seq<int>): (m: real)
    requires s != []
  {
    var mid := |s| / 2;
    if |s| % 2 == 1 then s[mid] as real
    else (s[mid - 1] + s[mid]) as real / 2.0
  }

  /** The median of `s`: 0 for no input, otherwise the middle of its ascending
      arrangement. */
  function Median(s: seq<int>): (m: real)
    ensures s == [] ==> m == 0.0
  {
    if s == [] then 0.0 else Middle(SortSeq(s))
  }

  /** The median of a non-empty input lies between two of its elements, so
      between its minimum and its maximum. */
  lemma MedianBounds(s: seq<int>)
    requires s != []
    ensures exists i, j :: 0 <= i < |s| && 0 <= j < |s| && s[i] as real <= Median(s) <= s[j] as real
  {
    var t := SortSeq(s);
    SortSeqSorted(s);
    assert |t| == |multiset(t)| == |multiset(s)| == |s|;
    var mid := |t| / 2;
    var lo := if |t| % 2 == 1 then mid else mid - 1;
    assert t[lo] <= t[mid];
    var m := Median(s);
    assert m == Middle(t);
    assert t[lo] as real <= m <= t[mid] as real;
    assert t[lo] in multiset(s) && t[mid] in multiset(s);
    var i :| 0 <= i < |s| && s[i] == t[lo];
    var j :| 0 <= j < |s| && s[j] == t[mid];
  }

  /** The median does not depend on the order of the input. */
  lemma MedianOrderIndependent(s: seq<int>, t: seq<int>)
    requires multiset(s) == multiset(t)
    ensures Median(s) == Median(t)
  {
    SortSeqSorted(s);
    SortSeqSorted(t);
    SortedUnique(SortSeq(s), SortSeq(t));
    assert |s| == |multiset(s)| == |multiset(t)| == |t|;
  }

  /** On an input that is already ascending, the median is its middle. */
  lemma MedianOfSorted(s: seq<int>)
    requires Sorted(s) && s != []
    ensures Median(s) == Middle(s)
  {
    SortSeqSorted(s);
    SortedUnique(SortSeq(s), s);
  }

  /** Worked values of the median: one element, an even and an odd count. */
  lemma MedianOfOne()
    ensures Median([5]) == 5.0
  {
    MedianOfSorted([5]);
  }

  lemma MedianOfFour()
    ensures Median([1, 2, 3, 4]) == 2.5
  {
    MedianOfSorted([1, 2, 3, 4]);
  }

  lemma MedianOfThreeElements(s: seq<int>, x: int, y: int, z: int)
    requires x <= y <= z
    requires multiset(s) == multiset{x, y, z}
    ensures Median(s) == y as real
  {
    var sorted := [x, y, z];
    assert Middle(sorted) == y as real;
    MedianOfSorted(sorted);
    assert multiset(sorted) == multiset{x, y, z};
    MedianOrderIndependent(s, sorted);
  }

  lemma MedianOfThree()
    ensures Median([3, 1, 2]) == 2.0
  {
    MedianOfThreeElements([3, 1, 2], 1, 2, 3);
  }

  /** Sorts `a` ascending in place, as the library sort does with the
      numeric comparator. */
  method SortInPlace(a: array<int>)
    modifies a
    ensures a[..] == SortSeq(old(a[..]))
    ensures Sorted(a[..]) && multiset(a[..]) == multiset(old(a[..]))
  {
    var sorted := SortSeq(a[..]);
    SortSeqSorted(a[..]);
    assert |sorted| == |multiset(sorted)| == |multiset(a[..])| == a.Length;
    forall i | 0 <= i < a.Length {
      a[i] := sorted[i];
    }
    assert a[..] == sorted;
  }

  /** The median of the numbers in `a`; leaves `a` sorted ascending when it is
      not empty. */
  method MedianInPlace(a: array<int>) returns (m: real)
    modifies a
    ensures m == Median(old(a[..]))
    ensures a.Length == 0 ==> m == 0.0
    ensures Sorted(a[..]) && multiset(a[..]) == multiset(old(a[..]))
    ensures a.Length > 0 ==> m == Middle(a[..])
  {
    if a.Length == 0 {
      return 0.0;
    }
    SortInPlace(a);
    var mid := a.Length / 2;
    m := if a.Length % 2 == 1 then a[mid] as real else (a[mid - 1] + a[mid]) as real / 2.0;
  }
}
