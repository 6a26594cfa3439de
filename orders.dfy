/** Order and permutation vocabulary shared by every sorting routine.

    A C slice `double *p` of length `n` is modelled as the window
    `[lo, lo + n)` of an array; the predicates below speak about the
    sequence `a[..]` so that they can be compared across states. */
module Orders {

  /** Non-decreasing order: every earlier element is at most every later one. */
  ghost predicate Sorted(s: seq<int>)
  {
    forall i, j :: 0 <= i < j < |s| ==> s[i] <= s[j]
  }

  /** `s` and `t` have the same length and agree everywhere outside `[lo, hi)`. */
  ghost predicate SameOutside(s: seq<int>, t: seq<int>, lo: int, hi: int)
  {
    |s| == |t| && forall k :: 0 <= k < |s| && !(lo <= k < hi) ==> s[k] == t[k]
  }

  /** A slice lying wholly outside the changed window is unchanged. */
  lemma OutsideSliceUnchanged(s: seq<int>, t: seq<int>, lo: int, hi: int, a: int, b: int)
    requires SameOutside(s, t, lo, hi)
    requires 0 <= a <= b <= |s| && (b <= lo || hi <= a)
    ensures s[a..b] == t[a..b]
  {
  }

  /** Agreement outside a window composes with agreement outside a smaller
      window inside it. */
  lemma SameOutsideTrans(s: seq<int>, t: seq<int>, u: seq<int>, lo: int, hi: int, lo2: int, hi2: int)
    requires SameOutside(s, t, lo2, hi2) && SameOutside(t, u, lo, hi)
    requires lo <= lo2 && hi2 <= hi
    ensures SameOutside(s, u, lo, hi)
  {
  }

  /** When two arrays agree outside a window, the window's elements are a
      permutation of each other exactly when the whole arrays are. */
  lemma WindowPermIsWholePerm(s: seq<int>, t: seq<int>, lo: int, hi: int)
    requires 0 <= lo <= hi <= |s|
    requires SameOutside(s, t, lo, hi)
    ensures multiset(s[lo..hi]) == multiset(t[lo..hi]) <==> multiset(s) == multiset(t)
  {
    OutsideSliceUnchanged(s, t, lo, hi, 0, lo);
    OutsideSliceUnchanged(s, t, lo, hi, hi, |s|);
    MultisetOfThirds(s, lo, hi);
    MultisetOfThirds(t, lo, hi);
    var outside := multiset(s[0..lo]) + multiset(s[hi..|s|]);
    if multiset(s) == multiset(t) {
      MultisetCancel(multiset(s[lo..hi]), multiset(t[lo..hi]), outside);
    }
  }

  /** A sequence's multiset is the sum of the multisets of three consecutive
      pieces. */
  lemma MultisetOfThirds(s: seq<int>, lo: int, hi: int)
    requires 0 <= lo <= hi <= |s|
    ensures multiset(s) == multiset(s[lo..hi]) + (multiset(s[0..lo]) + multiset(s[hi..|s|]))
  {
    assert s == s[0..lo] + s[lo..hi] + s[hi..|s|];
  }

  /** Multiset sum cancels. */
  lemma MultisetCancel(x: multiset<int>, y: multiset<int>, z: multiset<int>)
    requires x + z == y + z
    ensures x == y
  {
    assert x == (x + z) - z;
    assert y == (y + z) - z;
  }

  /** `after` is `before` with the window `[lo, hi)` replaced by a sorted
      permutation of itself: what an in-place sort of that window does. */
  ghost predicate SortsWindow(after: seq<int>, before: seq<int>, lo: int, hi: int)
  {
    0 <= lo <= hi <= |before| && SameOutside(after, before, lo, hi)
    && Sorted(after[lo..hi]) && multiset(after[lo..hi]) == multiset(before[lo..hi])
  }

  /** Pointwise non-decreasing order on the window `[lo, hi)` of `s`. */
  ghost predicate SortedBetween(s: seq<int>, lo: int, hi: int)
  {
    0 <= lo <= hi <= |s| && forall i, j :: lo <= i < j < hi ==> s[i] <= s[j]
  }

  /** `after` is `before` with elements of the window `[lo, hi)` moved
      around inside it: nothing outside changes and no element is lost or
      gained. */
  ghost predicate Rearranged(after: seq<int>, before: seq<int>, lo: int, hi: int)
  {
    0 <= lo <= hi <= |before| && SameOutside(after, before, lo, hi)
    && multiset(after) == multiset(before)
  }

  /** What an in-place sort does to its window: rearranges it into sorted
      order. */
  ghost predicate SortedInPlace(after: seq<int>, before: seq<int>, lo: int, hi: int)
  {
    Rearranged(after, before, lo, hi) && SortedBetween(after, lo, hi)
  }

  /** The element-wise vocabulary means the same as the slice one: a sorted
      permutation of the window, nothing else changed. */
  lemma SortedInPlaceIsSortsWindow(after: seq<int>, before: seq<int>, lo: int, hi: int)
    ensures SortedInPlace(after, before, lo, hi) <==> SortsWindow(after, before, lo, hi)
  {
    if 0 <= lo <= hi <= |before| && SameOutside(after, before, lo, hi) {
      WindowPermIsWholePerm(after, before, lo, hi);
      SortedSliceIsSortedBetween(after, lo, hi);
    }
  }

  /** One direction of `SortedInPlaceIsSortsWindow`. */
  lemma InPlaceAsWindow(after: seq<int>, before: seq<int>, lo: int, hi: int)
    requires SortedInPlace(after, before, lo, hi)
    ensures SortsWindow(after, before, lo, hi)
  {
    SortedInPlaceIsSortsWindow(after, before, lo, hi);
  }

  /** The other direction of `SortedInPlaceIsSortsWindow`. */
  lemma WindowAsInPlace(after: seq<int>, before: seq<int>, lo: int, hi: int)
    requires SortsWindow(after, before, lo, hi)
    ensures SortedInPlace(after, before, lo, hi)
  {
    SortedInPlaceIsSortsWindow(after, before, lo, hi);
  }

  /** Order of a slice is order between its bounds. */
  lemma SortedSliceIsSortedBetween(s: seq<int>, lo: int, hi: int)
    requires 0 <= lo <= hi <= |s|
    ensures Sorted(s[lo..hi]) <==> SortedBetween(s, lo, hi)
  {
    if Sorted(s[lo..hi]) {
      forall i, j | lo <= i < j < hi
        ensures s[i] <= s[j]
      {
        assert s[i] == s[lo..hi][i - lo] && s[j] == s[lo..hi][j - lo];
      }
    }
    if SortedBetween(s, lo, hi) {
      forall i, j | 0 <= i < j < hi - lo
        ensures s[lo..hi][i] <= s[lo..hi][j]
      {
        assert s[lo..hi][i] == s[lo + i] && s[lo..hi][j] == s[lo + j];
      }
    }
  }

  /** A window of at most one element is already sorted, so leaving it as
      it is sorts it in place. */
  lemma ShortSortedInPlace(s: seq<int>, lo: nat, hi: nat)
    requires lo <= hi <= |s| && hi - lo <= 1
    ensures SortedInPlace(s, s, lo, hi)
  {
  }

  /** `dst[dlo..dlo + n)` holds the elements of `src[lo..lo + n)` in sorted
      order: where a sort that may leave its result in another buffer puts it. */
  ghost predicate HoldsSortedPerm(dst: seq<int>, dlo: int, src: seq<int>, lo: int, n: int)
  {
    0 <= dlo && 0 <= lo && 0 <= n && dlo + n <= |dst| && lo + n <= |src|
    && Sorted(dst[dlo..dlo + n]) && multiset(dst[dlo..dlo + n]) == multiset(src[lo..lo + n])
  }

  /** An upper bound on every element survives a permutation. */
  lemma AtMostPreserved(s: seq<int>, t: seq<int>, bound: int)
    requires multiset(s) == multiset(t)
    requires forall k :: 0 <= k < |s| ==> s[k] <= bound
    ensures forall k :: 0 <= k < |t| ==> t[k] <= bound
  {
    forall k | 0 <= k < |t|
      ensures t[k] <= bound
    {
      assert t[k] in multiset(t);
      assert t[k] in s;
    }
  }

  /** A strict lower bound on every element survives a permutation. */
  lemma AbovePreserved(s: seq<int>, t: seq<int>, bound: int)
    requires multiset(s) == multiset(t)
    requires forall k :: 0 <= k < |s| ==> s[k] > bound
    ensures forall k :: 0 <= k < |t| ==> t[k] > bound
  {
    forall k | 0 <= k < |t|
      ensures t[k] > bound
    {
      assert t[k] in multiset(t);
      assert t[k] in s;
    }
  }

  /** A sorted arrangement of a multiset is unique: any two sorting routines
      whose results are sorted permutations of the same input produce
      identical arrays. */
  lemma {:induction false} SortedPermUnique(s: seq<int>, t: seq<int>)
    requires Sorted(s) && Sorted(t)
    requires multiset(s) == multiset(t)
    ensures s == t
  {
    if s == [] {
      assert |multiset(t)| == 0;
    } else {
      SameHead(s, t);
      HeadAndTail(s);
      HeadAndTail(t);
      MultisetCancel(multiset(s[1..]), multiset(t[1..]), multiset{s[0]});
      SortedPermUnique(s[1..], t[1..]);
      assert s == [s[0]] + s[1..] && t == [t[0]] + t[1..];
    }
  }

  /** Two sorted permutations of a non-empty multiset start with its least
      element. */
  lemma SameHead(s: seq<int>, t: seq<int>)
    requires Sorted(s) && Sorted(t)
    requires multiset(s) == multiset(t) && |s| > 0
    ensures |t| > 0 && s[0] == t[0]
  {
    assert s[0] in multiset(s);
    HeadIsLeast(t, s[0]);
    assert t[0] in multiset(t);
    HeadIsLeast(s, t[0]);
  }

  /** The head of a sorted sequence is at most each of its elements. */
  lemma HeadIsLeast(s: seq<int>, x: int)
    requires Sorted(s) && x in multiset(s)
    ensures |s| > 0 && s[0] <= x
  {
    var k :| 0 <= k < |s| && s[k] == x;
  }

  /** Splitting off the head: the multiset and the order of the rest. */
  lemma HeadAndTail(s: seq<int>)
    requires Sorted(s) && |s| > 0
    ensures multiset(s) == multiset(s[1..]) + multiset{s[0]}
    ensures Sorted(s[1..])
  {
    assert s == [s[0]] + s[1..];
    forall i, j | 0 <= i < j < |s[1..]|
      ensures s[1..][i] <= s[1..][j]
    {
      assert s[1..][i] == s[i + 1] && s[1..][j] == s[j + 1];
    }
  }
}
