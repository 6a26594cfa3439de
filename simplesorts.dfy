/** The quadratic sorts: `selectionsort`, `insertionsort`, and the refined
    selection sort `selsort` with its helper `thebest`. Each sorts the
    prefix `p[0..n)` of the caller's buffer in place. */
module SimpleSorts {
  import opened Orders
  import opened Primitives

  /** Selection sort: for each position `i`, scan `(i, n)` for a smaller
      element than the best so far (strict `>`, so the first minimum wins)
      and swap it into place when it is not already there. */
  method SelectionSort(a: array<int>, n: nat)
    requires n <= a.Length
    modifies a
    ensures Sorted(a[..n])
    ensures multiset(a[..n]) == multiset(old(a[..n]))
    ensures SameOutside(a[..], old(a[..]), 0, n)
  {
    var i := 0;
    while i < n
      invariant 0 <= i <= n
      invariant SelectedPrefix(a[..], i, n)
      invariant multiset(a[..]) == multiset(old(a[..]))
      invariant SameOutside(a[..], old(a[..]), 0, n)
    {
      var best := i;
      var j := i + 1;
      while j < n
        invariant i <= best < j <= n
        invariant forall k :: i <= k < j ==> a[best] <= a[k]
      {
        if a[best] > a[j] {
          best := j;
        }
        j := j + 1;
      }
      ghost var before := a[..];
      if best != i {
        PSwap(a, best, i);
      }
      SelectStep(before, a[..], i, best, n);
      i := i + 1;
    }
    SelectedAll(a[..], n);
    WindowPermIsWholePerm(a[..], old(a[..]), 0, n);
  }

  /** The invariant of both selection sorts after `i` passes: `p[0..i)` is
      sorted and no element of it exceeds an element of `p[i..n)`. */
  ghost predicate SelectedPrefix(s: seq<int>, i: int, n: int)
  {
    0 <= i <= n <= |s|
    && (forall x, y :: 0 <= x < y < i ==> s[x] <= s[y])
    && (forall x, y :: 0 <= x < i <= y < n ==> s[x] <= s[y])
  }

  /** One pass of a selection sort: exchanging `p[i]` with a minimum
      `p[best]` of `p[i..n)` extends the invariant to `i + 1`. */
  lemma SelectStep(b: seq<int>, b1: seq<int>, i: nat, best: nat, n: nat)
    requires SelectedPrefix(b, i, n) && i <= best < n && |b1| == |b|
    requires forall k :: i <= k < n ==> b[best] <= b[k]
    requires b1[i] == b[best] && b1[best] == b[i]
    requires forall k :: 0 <= k < |b| && k != i && k != best ==> b1[k] == b[k]
    ensures SelectedPrefix(b1, i + 1, n)
  {
  }

  /** After `n` passes the window is sorted. */
  lemma SelectedAll(s: seq<int>, n: nat)
    requires SelectedPrefix(s, n, n)
    ensures Sorted(s[..n])
  {
  }

  /** Insertion sort: extend the sorted prefix `p[0..i)` by walking the new
      element backwards with adjacent swaps, stopping at the first pair that
      is already in order. */
  method InsertionSort(a: array<int>, n: nat)
    requires n <= a.Length
    modifies a
    ensures Sorted(a[..n])
    ensures multiset(a[..n]) == multiset(old(a[..n]))
    ensures SameOutside(a[..], old(a[..]), 0, n)
  {
    var i := 1;
    while i < n
      invariant 1 <= i && (i <= n || n == 0)
      invariant forall x, y :: 0 <= x < y < i && y < n ==> a[x] <= a[y]
      invariant multiset(a[..]) == multiset(old(a[..]))
      invariant SameOutside(a[..], old(a[..]), 0, n)
    {
      var j := i;
      while j > 0
        invariant 0 <= j <= i
        // everything in p[0..i] except the travelling element at j is in order
        invariant forall x, y :: 0 <= x < y <= i && x != j && y != j ==> a[x] <= a[y]
        // the travelling element is at most everything it has passed
        invariant forall y :: j < y <= i ==> a[j] <= a[y]
        invariant multiset(a[..]) == multiset(old(a[..]))
        invariant SameOutside(a[..], old(a[..]), 0, n)
      {
        if a[j - 1] > a[j] {
          PSwap(a, j - 1, j);
        } else {
          break;
        }
        j := j - 1;
      }
      i := i + 1;
    }
    WindowPermIsWholePerm(a[..], old(a[..]), 0, n);
  }

  /** `thebest(p, n)`: the position of the first minimum of `p[0..n)`; the
      strict `<` never moves past an equal element. For `n == 0` the loop does
      not run and the result is `p` itself. Indices are absolute, so the
      pointer `p + b` is the index `lo + b`. */
  method TheBest(a: array<int>, lo: nat, n: nat) returns (b: nat)
    requires lo + n <= a.Length
    ensures n == 0 ==> b == lo
    ensures n > 0 ==> lo <= b < lo + n
    ensures n > 0 ==> forall k :: lo <= k < lo + n ==> a[b] <= a[k]
    ensures n > 0 ==> forall k :: lo <= k < b ==> a[k] > a[b]
  {
    var best := 0;
    var i := 0;
    while i < n
      invariant 0 <= i <= n
      invariant best == 0 || best < i
      invariant n > 0 ==> best < n
      invariant forall k :: lo <= k < lo + i ==> a[lo + best] <= a[k]
      invariant forall k :: lo <= k < lo + best ==> a[k] > a[lo + best]
    {
      if a[lo + i] < a[lo + best] {
        best := i;
      }
      i := i + 1;
    }
    b := lo + best;
  }

  /** Refined selection sort: swap position `i` with `thebest(p + i, n - i)`,
      unconditionally (a self-swap when `p[i]` is already the minimum). */
  method SelSort(a: array<int>, n: nat)
    requires n <= a.Length
    modifies a
    ensures Sorted(a[..n])
    ensures multiset(a[..n]) == multiset(old(a[..n]))
    ensures SameOutside(a[..], old(a[..]), 0, n)
  {
    var i := 0;
    while i < n
      invariant 0 <= i <= n
      invariant SelectedPrefix(a[..], i, n)
      invariant multiset(a[..]) == multiset(old(a[..]))
      invariant SameOutside(a[..], old(a[..]), 0, n)
    {
      var b := TheBest(a, i, n - i);
      ghost var before := a[..];
      PSwap(a, i, b);
      SelectStep(before, a[..], i, b, n);
      i := i + 1;
    }
    SelectedAll(a[..], n);
    WindowPermIsWholePerm(a[..], old(a[..]), 0, n);
  }
}
