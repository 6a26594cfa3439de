/** The correctness check of the timing harness, `issorted`, and the part of
    `timetest` that runs one sort on a buffer and checks its result. */
module Harness {
  import opened Orders
  import opened SimpleSorts
  import opened MergeSorts
  import opened QuickSorts

  /** Every adjacent pair is in order: what `issorted` looks at. */
  ghost predicate AdjacentSorted(s: seq<int>)
  {
    forall k :: 0 <= k && k + 1 < |s| ==> s[k] <= s[k + 1]
  }

  /** Looking at adjacent pairs is enough: a sequence whose adjacent pairs
      are in order is sorted, and conversely. */
  lemma {:induction false} AdjacentSortedIsSorted(s: seq<int>)
    ensures AdjacentSorted(s) <==> Sorted(s)
  {
    if AdjacentSorted(s) {
      forall i, j | 0 <= i < j < |s|
        ensures s[i] <= s[j]
      {
        AdjacentChain(s, i, j);
      }
    }
  }

  /** In a sequence whose adjacent pairs are in order, an element is at most
      every later one. */
  lemma {:induction false} AdjacentChain(s: seq<int>, i: int, j: int)
    requires AdjacentSorted(s) && 0 <= i <= j < |s|
    ensures s[i] <= s[j]
    decreases j - i
  {
    if i < j {
      AdjacentChain(s, i + 1, j);
      assert s[i] <= s[i + 1];
    }
  }

  /** The first descent of `s` at or after position `i`: the least `k > i`
      with `s[k] < s[k - 1]`, or 0 when there is none. */
  function FirstDescentFrom(s: seq<int>, i: nat): (r: nat)
    ensures r == 0 <==> forall k :: i <= k && k + 1 < |s| ==> s[k] <= s[k + 1]
    ensures r != 0 ==> i + 1 <= r < |s| && s[r] < s[r - 1]
    ensures r != 0 ==> forall k :: i <= k && k + 1 < r ==> s[k] <= s[k + 1]
    decreases |s| - i
  {
    if i + 1 >= |s| then 0
    else if s[i + 1] < s[i] then i + 1
    else FirstDescentFrom(s, i + 1)
  }

  /** The first descent of `s`, 0 when `s` is in order. */
  function FirstDescent(s: seq<int>): (r: nat)
    ensures r == 0 <==> AdjacentSorted(s)
    ensures r != 0 ==> 1 <= r < |s| && s[r] < s[r - 1] && AdjacentSorted(s[..r])
  {
    FirstDescentFrom(s, 0)
  }

  /** `issorted(p, n)`: scan the adjacent pairs `p[i], p[i + 1]` for
      `i < n - 1` and return `i + 1` at the first pair out of order, 0 when
      there is none. It only reads the buffer. The guard `i < n - 1` is on
      `unsigned int`, so the routine needs `n >= 1` (see `EmptyWindowOverrun`);
      for such `n` it is the guard below (see `GuardAsWritten`). */
  method IsSorted(a: array<int>, n: nat) returns (r: nat)
    requires 1 <= n <= a.Length
    ensures r == FirstDescent(a[..n])
    ensures r == 0 <==> Sorted(a[..n])
    ensures r != 0 ==> 1 <= r <= n - 1 && a[r] < a[r - 1]
    ensures r != 0 ==> forall k :: 0 <= k && k + 1 < r ==> a[k] <= a[k + 1]
  {
    ghost var s := a[..n];
    var i: nat := 0;
    r := 0;
    while i < n - 1
      invariant i <= n - 1
      invariant FirstDescentFrom(s, i) == FirstDescentFrom(s, 0)
    {
      if a[i + 1] < a[i] {
        r := i + 1;
        break;
      }
      i := i + 1;
    }
    AdjacentSortedIsSorted(s);
  }

  /** The size of `unsigned int` values: arithmetic on them is modulo this. */
  const UintRange: nat := 0x1_0000_0000

  /** `n - 1` computed on `unsigned int`. */
  function UnsignedPred(n: nat): (r: nat)
    requires n < UintRange
    ensures r < UintRange
    ensures n >= 1 ==> r == n - 1
    ensures n == 0 ==> r == UintRange - 1
  {
    (n - 1) % UintRange
  }

  /** For `n >= 1` the C guard `i < n - 1` is the guard of `IsSorted`. */
  lemma GuardAsWritten(i: nat, n: nat)
    requires 1 <= n < UintRange
    ensures i < UnsignedPred(n) <==> i + 1 < n
  {
  }

  /** For `n == 0` the C guard admits `i == 0`, so the first pass reads
      `p[1]` and `p[0]`, neither inside the empty window; the loop goes on
      reading up to `p[4294967295]` unless a descent stops it. */
  lemma EmptyWindowOverrun(n: nat)
    requires n == 0
    ensures 0 < UnsignedPred(n) && !(0 + 1 < n) && !(0 < n)
    ensures UnsignedPred(n) == UintRange - 1
  {
  }

  /** `issorted` with the empty window handled: for `n == 0` there is no
      pair to compare and the answer is 0; otherwise the scan above. */
  method IsSortedAnyLength(a: array<int>, n: nat) returns (r: nat)
    requires n <= a.Length
    ensures r == FirstDescent(a[..n])
    ensures r == 0 <==> Sorted(a[..n])
    ensures r != 0 ==> 1 <= r <= n - 1 && a[r] < a[r - 1]
  {
    if n == 0 {
      AdjacentSortedIsSorted(a[..n]);
      return 0;
    }
    r := IsSorted(a, n);
  }

  /** The entries of the harness's table of sorts, `libqsort` aside:
      `selectionsort`, `selsort`, `insertionsort`, `msort`, `xmsort`, `qs`. */
  datatype Routine = Selection | ImprovedSelection | Insertion | CopyBackMerge | PingPongMerge | Quick

  /** One round of `timetest` without the clock and the random input: run
      the chosen sort on `p[0..n)`, then check it with `issorted`. The check
      never reports a failure. The check is the one with the empty window
      handled, so `n == 0` is allowed. */
  method RunAndCheck(a: array<int>, n: nat, f: Routine) returns (error: nat)
    requires n <= a.Length
    modifies a
    ensures error == 0
    ensures Sorted(a[..n]) && multiset(a[..n]) == multiset(old(a[..n]))
    ensures SameOutside(a[..], old(a[..]), 0, n)
  {
    match f {
      case Selection => SelectionSort(a, n);
      case ImprovedSelection => SelSort(a, n);
      case Insertion => InsertionSort(a, n);
      case CopyBackMerge => MSort(a, n);
      case PingPongMerge => XMSort(a, n);
      case Quick => QSort(a, n);
    }
    error := IsSortedAnyLength(a, n);
  }

  /** All the sorts compute the same function: two routines of the table,
      run on two buffers that hold the same first `n` elements, leave the
      same first `n` elements in both. */
  method RoutinesAgree(a: array<int>, b: array<int>, n: nat, f: Routine, g: Routine)
    requires a != b && n <= a.Length && n <= b.Length
    requires a[..n] == b[..n]
    modifies a, b
    ensures a[..n] == b[..n]
    ensures Sorted(a[..n]) && multiset(a[..n]) == multiset(old(a[..n]))
    ensures SameOutside(a[..], old(a[..]), 0, n) && SameOutside(b[..], old(b[..]), 0, n)
  {
    var e1 := RunAndCheck(a, n, f);
    var e2 := RunAndCheck(b, n, g);
    SortedPermUnique(a[..n], b[..n]);
  }
}
