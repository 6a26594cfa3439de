/** Quicksort: `partition` with the first element as pivot and two cursors
    moving towards each other, and the recursive `qs`. */
module QuickSorts {
  import opened Orders
  import opened Primitives

  /** The window `s[lo..hi)` is split at `m`: nothing before the pivot
      position exceeds the pivot, everything after it is greater. */
  ghost predicate Partitioned(s: seq<int>, lo: int, m: int, hi: int)
  {
    0 <= lo <= m < hi <= |s|
    && (forall k :: lo <= k < m ==> s[k] <= s[m])
    && (forall k :: m < k < hi ==> s[k] > s[m])
  }

  /** `partition(p, n)`: with `pivot = p[0]`, `alpha` runs up over elements
      `<= pivot` and `beta` down over elements `> pivot`; an out-of-place
      pair `p[alpha + 1]`, `p[beta]` is exchanged, and when the cursors meet
      the pivot is swapped to `p[alpha]`. The C code reads `*p` before it
      tests `n < 2`, so it needs `n >= 1`; for `n == 1` it returns 0 and
      changes nothing. Every element it reads lies in `p[0..n)`. */
  method Partition(a: array<int>, lo: nat, n: nat) returns (r: nat)
    requires 1 <= n && lo + n <= a.Length
    modifies a
    ensures r < n && a[lo + r] == old(a[lo])
    ensures Partitioned(a[..], lo, lo + r, lo + n)
    ensures Rearranged(a[..], old(a[..]), lo, lo + n)
  {
    var alpha: nat := 0;
    var beta: nat := n - 1;
    var pivot := a[lo];
    if n < 2 {
      return 0;
    }
    while true
      invariant alpha < beta <= n - 1
      invariant Scanned(a[..], lo, n, alpha, beta, pivot) && pivot == old(a[lo])
      invariant multiset(a[..]) == multiset(old(a[..]))
      invariant SameOutside(a[..], old(a[..]), lo, lo + n)
      decreases beta - alpha, if a[lo + alpha + 1] <= pivot then 0 else 1
    {
      ghost var alpha0, beta0 := alpha, beta;
      ghost var stuck := a[lo + alpha + 1] > pivot;
      var met: bool;
      alpha, met := ScanUp(a, lo, n, alpha, beta, pivot);
      if met {
        r := PlacePivot(a, lo, n, alpha, pivot, old(a[..]));
        return;
      }
      beta, met := ScanDown(a, lo, n, alpha, beta, pivot);
      if met {
        r := PlacePivot(a, lo, n, alpha, pivot, old(a[..]));
        return;
      }
      // here p[alpha + 1] > pivot >= p[beta], so beta >= alpha + 2
      assert alpha0 <= alpha < beta <= beta0 && (alpha == alpha0 ==> stuck);
      ExchangeOutOfPlace(a, lo, n, alpha, beta, pivot, old(a[..]));
    }
  }

  /** `pswap(p + alpha + 1, p + beta)`: the element above the pivot that
      stopped `alpha` and the one at most the pivot that stopped `beta` are
      exchanged, after which `alpha` can advance again. */
  method ExchangeOutOfPlace(a: array<int>, lo: nat, n: nat, alpha: nat, beta: nat, pivot: int, ghost orig: seq<int>)
    requires alpha < beta && Scanned(a[..], lo, n, alpha, beta, pivot)
    requires SameOutside(a[..], orig, lo, lo + n) && multiset(a[..]) == multiset(orig)
    modifies a
    ensures Scanned(a[..], lo, n, alpha, beta, pivot)
    ensures a[lo + alpha + 1] == old(a[lo + beta])
    ensures SameOutside(a[..], orig, lo, lo + n) && multiset(a[..]) == multiset(orig)
  {
    ghost var before := a[..];
    PSwap(a, lo + alpha + 1, lo + beta);
    SwapKeepsScanned(before, a[..], lo, n, alpha, beta, pivot);
    SwapFrame(before, a[..], orig, lo + alpha + 1, lo + beta, lo, lo + n);
  }

  /** The code at `done`, reached from both inner loops once the cursors have
      met at `alpha`: `pswap(p, p + alpha)` moves the pivot there, which
      partitions the window, and `alpha` is returned. `orig` is the array as
      `partition` was called with it. */
  method PlacePivot(a: array<int>, lo: nat, n: nat, alpha: nat, pivot: int, ghost orig: seq<int>)
    returns (r: nat)
    requires Scanned(a[..], lo, n, alpha, alpha, pivot)
    requires SameOutside(a[..], orig, lo, lo + n) && multiset(a[..]) == multiset(orig)
    modifies a
    ensures r == alpha && a[lo + r] == pivot && Partitioned(a[..], lo, lo + r, lo + n)
    ensures Rearranged(a[..], orig, lo, lo + n)
  {
    ghost var before := a[..];
    PSwap(a, lo, lo + alpha);
    r := alpha;
    PivotPlaced(before, a[..], lo, r, n, pivot);
    SwapFrame(before, a[..], orig, lo, lo + r, lo, lo + n);
  }

  /** The first inner loop of `partition`: advance `alpha` while
      `p[alpha + 1] <= pivot`, jumping to `done` when `alpha` reaches `n - 1`
      or `beta`. Since `alpha < beta <= n - 1` on entry, reaching `n - 1`
      means reaching `beta`, so `met` tells exactly whether the cursors met;
      otherwise `alpha` stops at an element above the pivot. Only
      `p[alpha + 1]` with `alpha + 1 <= beta` is read. */
  method ScanUp(a: array<int>, lo: nat, n: nat, alpha: nat, beta: nat, pivot: int)
    returns (alpha': nat, met: bool)
    requires alpha < beta && Scanned(a[..], lo, n, alpha, beta, pivot)
    ensures alpha <= alpha' <= beta && Scanned(a[..], lo, n, alpha', beta, pivot)
    ensures met <==> alpha' == beta
    ensures !met ==> a[lo + alpha' + 1] > pivot
  {
    alpha' := alpha;
    while a[lo + alpha' + 1] <= pivot
      invariant alpha <= alpha' < beta
      invariant lo + alpha' + 1 < lo + n  // the guard reads inside the window
      invariant Scanned(a[..], lo, n, alpha', beta, pivot)
      decreases beta - alpha'
    {
      alpha' := alpha' + 1;
      if alpha' == n - 1 || alpha' == beta {
        return alpha', true;
      }
    }
    met := false;
  }

  /** The second inner loop: retreat `beta` while `p[beta] > pivot`, jumping
      to `done` when it reaches `alpha`; otherwise `beta` stops at an element
      at most the pivot. */
  method ScanDown(a: array<int>, lo: nat, n: nat, alpha: nat, beta: nat, pivot: int)
    returns (beta': nat, met: bool)
    requires alpha < beta && Scanned(a[..], lo, n, alpha, beta, pivot)
    ensures alpha <= beta' <= beta && Scanned(a[..], lo, n, alpha, beta', pivot)
    ensures met <==> beta' == alpha
    ensures !met ==> a[lo + beta'] <= pivot
  {
    beta' := beta;
    while a[lo + beta'] > pivot
      invariant alpha < beta' <= beta
      invariant lo < lo + beta' < lo + n  // the guard reads inside the window, above the pivot
      invariant Scanned(a[..], lo, n, alpha, beta', pivot)
      decreases beta'
    {
      beta' := beta' - 1;
      if beta' == alpha {
        return beta', true;
      }
    }
    met := false;
  }

  /** A swap of two positions inside `[lo, hi)` keeps agreement outside it. */
  lemma SwapFrame(b: seq<int>, b1: seq<int>, b0: seq<int>, i: nat, j: nat, lo: nat, hi: nat)
    requires SameOutside(b, b0, lo, hi) && |b1| == |b|
    requires lo <= i < hi && lo <= j < hi
    requires forall k :: 0 <= k < |b| && k != i && k != j ==> b1[k] == b[k]
    ensures SameOutside(b1, b0, lo, hi)
  {
  }

  /** What `partition`'s cursors have established: the pivot is still at
      `p[0]`, `p[1..alpha]` is at most the pivot and `p(beta..n)` above it. */
  ghost predicate Scanned(s: seq<int>, lo: int, n: int, alpha: int, beta: int, pivot: int)
  {
    0 <= lo && 0 <= alpha <= beta < n && lo + n <= |s| && s[lo] == pivot
    && (forall k :: lo + 1 <= k <= lo + alpha ==> s[k] <= pivot)
    && (forall k :: lo + beta < k < lo + n ==> s[k] > pivot)
  }

  /** Exchanging `p[alpha + 1]` and `p[beta]`, both between the cursors,
      keeps what the cursors have established. */
  lemma SwapKeepsScanned(b: seq<int>, b1: seq<int>, lo: nat, n: nat, alpha: nat, beta: nat, pivot: int)
    requires Scanned(b, lo, n, alpha, beta, pivot) && alpha < beta && |b1| == |b|
    requires forall k :: 0 <= k < |b| && k != lo + alpha + 1 && k != lo + beta ==> b1[k] == b[k]
    ensures Scanned(b1, lo, n, alpha, beta, pivot)
  {
  }

  /** The final `pswap(p, p + alpha)`: once the cursors have met at `alpha`,
      exchanging `p[0]` and `p[alpha]` partitions the window there. */
  lemma PivotPlaced(b: seq<int>, b1: seq<int>, lo: nat, r: nat, n: nat, pivot: int)
    requires Scanned(b, lo, n, r, r, pivot) && |b1| == |b|
    requires b1[lo] == b[lo + r] && b1[lo + r] == b[lo]
    requires forall k :: 0 <= k < |b| && k != lo && k != lo + r ==> b1[k] == b[k]
    ensures b1[lo + r] == pivot && Partitioned(b1, lo, lo + r, lo + n)
  {
  }

  /** `qs(p, n)`: nothing for `n < 2`; otherwise partition, then sort the part
      before the pivot when it is non-empty and the part after it when it is
      non-empty. The recursive windows are `[lo, lo + r)` and
      `[lo + r + 1, lo + n)`, both strictly shorter than `n`. */
  method QuickSort(a: array<int>, lo: nat, n: nat)
    requires lo + n <= a.Length
    modifies a
    ensures SortedInPlace(a[..], old(a[..]), lo, lo + n)
    decreases n
  {
    if n < 2 {
      return;
    }
    var pivotindex := Partition(a, lo, n);
    ghost var a1 := a[..];
    if pivotindex > 0 {
      QuickSort(a, lo, pivotindex);
    }
    ghost var a2 := a[..];
    if pivotindex + 1 < n {
      QuickSort(a, lo + pivotindex + 1, n - (pivotindex + 1));
    }
    QuickSortLevel(old(a[..]), a1, a2, a[..], lo, lo + pivotindex, lo + n);
  }

  /** One level of quicksort: a partition at `m`, then sorting each side in
      place, sorts the window. */
  lemma QuickSortLevel(a0: seq<int>, a1: seq<int>, a2: seq<int>, a3: seq<int>, lo: nat, m: nat, hi: nat)
    requires Partitioned(a1, lo, m, hi) && Rearranged(a1, a0, lo, hi)
    requires SortedInPlace(a2, a1, lo, m)
    requires SortedInPlace(a3, a2, m + 1, hi)
    ensures SortedInPlace(a3, a0, lo, hi)
  {
    var p := a1[m];
    BoundKept(a1, a2, lo, m, p);
    AboveKept(a2, a3, m + 1, hi, p);
    assert a3[m] == p;
    forall i, j | lo <= i < j < hi
      ensures a3[i] <= a3[j]
    {
      if j < m {
        assert a3[i] == a2[i] && a3[j] == a2[j];
      } else if j == m {
        assert a3[i] == a2[i];
      } else if i <= m {
        assert i < m ==> a3[i] == a2[i];
      }
    }
  }

  /** Rearranging `[lo, m)`, which is at most the pivot, then the part to its
      right, leaves `[lo, m)` at most the pivot. */
  lemma BoundKept(a1: seq<int>, a2: seq<int>, lo: nat, m: nat, p: int)
    requires 0 <= lo <= m <= |a1| && (forall k :: lo <= k < m ==> a1[k] <= p)
    requires Rearranged(a2, a1, lo, m)
    ensures forall k :: lo <= k < m ==> a2[k] <= p
  {
    WindowPermIsWholePerm(a2, a1, lo, m);
    BoundSlice(a1, lo, m, p);
    AtMostPreserved(a1[lo..m], a2[lo..m], p);
    forall k | lo <= k < m
      ensures a2[k] <= p
    {
      assert a2[k] == a2[lo..m][k - lo];
    }
  }

  /** Rearranging `[lo, hi)`, which is above the pivot, leaves it above. */
  lemma AboveKept(a1: seq<int>, a2: seq<int>, lo: nat, hi: nat, p: int)
    requires 0 <= lo <= hi <= |a1| && (forall k :: lo <= k < hi ==> a1[k] > p)
    requires Rearranged(a2, a1, lo, hi)
    ensures forall k :: lo <= k < hi ==> a2[k] > p
  {
    WindowPermIsWholePerm(a2, a1, lo, hi);
    AboveSlice(a1, lo, hi, p);
    AbovePreserved(a1[lo..hi], a2[lo..hi], p);
    forall k | lo <= k < hi
      ensures a2[k] > p
    {
      assert a2[k] == a2[lo..hi][k - lo];
    }
  }

  /** The pointwise bound `s[k] <= p` on `[lo, hi)` as a bound on the slice. */
  lemma BoundSlice(s: seq<int>, lo: nat, hi: nat, p: int)
    requires lo <= hi <= |s|
    requires forall k :: lo <= k < hi ==> s[k] <= p
    ensures forall k :: 0 <= k < |s[lo..hi]| ==> s[lo..hi][k] <= p
  {
  }

  /** The pointwise bound `s[k] > p` on `[lo, hi)` as a bound on the slice. */
  lemma AboveSlice(s: seq<int>, lo: nat, hi: nat, p: int)
    requires lo <= hi <= |s|
    requires forall k :: lo <= k < hi ==> s[k] > p
    ensures forall k :: 0 <= k < |s[lo..hi]| ==> s[lo..hi][k] > p
  {
  }

  /** `qs` applied to the whole buffer `p[0..n)`. */
  method QSort(a: array<int>, n: nat)
    requires n <= a.Length
    modifies a
    ensures Sorted(a[..n])
    ensures multiset(a[..n]) == multiset(old(a[..n]))
    ensures SameOutside(a[..], old(a[..]), 0, n)
  {
    QuickSort(a, 0, n);
    InPlaceAsWindow(a[..], old(a[..]), 0, n);
    assert a[..n] == a[0..0 + n] && old(a[..n]) == old(a[0..0 + n]);
  }
}
