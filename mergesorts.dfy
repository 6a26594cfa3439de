/** The two merge sorts: the copy-back version (`merge`, `rmsort`, `msort`)
    and the ping-pong version (`xmerge`, `xrmsort`, `xmsort`), which tracks
    through a `phase` flag which of the two buffers holds a subtree's result.

    The primary buffer `a` and the scratch buffer `s` are distinct arrays;
    a pointer pair `(p + half, s + half)` becomes the windows starting at
    `lo + half` and `slo + half`. */
module MergeSorts {
  import opened Orders
  import opened Primitives

  /** The merge of the runs `x[i..]` and `y[j..]` as the merge loop produces
      it: take the head of the left run when it is `<=` the head of the right
      run (so ties come from the left), otherwise the head of the right run;
      once one run is exhausted, the rest of the other follows. */
  function MergedFrom(x: seq<int>, y: seq<int>, i: nat, j: nat): (r: seq<int>)
    requires i <= |x| && j <= |y|
    ensures |r| == |x| - i + |y| - j
    decreases |x| - i + |y| - j
  {
    if i == |x| then y[j..]
    else if j == |y| then x[i..]
    else if x[i] <= y[j] then [x[i]] + MergedFrom(x, y, i + 1, j)
    else [y[j]] + MergedFrom(x, y, i, j + 1)
  }

  /** The merge of two whole runs. */
  function Merged(x: seq<int>, y: seq<int>): (r: seq<int>)
    ensures |r| == |x| + |y|
  {
    MergedFrom(x, y, 0, 0)
  }

  /** Merging loses and invents nothing: the result is a permutation of what
      is left of the two runs. */
  lemma {:induction false} MergedFromPerm(x: seq<int>, y: seq<int>, i: nat, j: nat)
    requires i <= |x| && j <= |y|
    ensures multiset(MergedFrom(x, y, i, j)) == multiset(x[i..]) + multiset(y[j..])
    decreases |x| - i + |y| - j
  {
    if i == |x| {
      assert x[i..] == [];
    } else if j == |y| {
      assert y[j..] == [];
    } else if x[i] <= y[j] {
      var rest := MergedFrom(x, y, i + 1, j);
      MergedFromPerm(x, y, i + 1, j);
      assert MergedFrom(x, y, i, j) == [x[i]] + rest;
      HeadSplit(x, i);
      assert multiset([x[i]] + rest) == multiset{x[i]} + multiset(rest);
    } else {
      var rest := MergedFrom(x, y, i, j + 1);
      MergedFromPerm(x, y, i, j + 1);
      assert MergedFrom(x, y, i, j) == [y[j]] + rest;
      HeadSplit(y, j);
      assert multiset([y[j]] + rest) == multiset{y[j]} + multiset(rest);
    }
  }

  /** A suffix's multiset is its head plus the rest. */
  lemma HeadSplit(x: seq<int>, i: nat)
    requires i < |x|
    ensures multiset(x[i..]) == multiset{x[i]} + multiset(x[i + 1..])
  {
    assert x[i..] == [x[i]] + x[i + 1..];
  }

  /** The merge of two sorted runs is sorted, and it starts with one of the
      two heads. */
  lemma {:induction false} MergedFromSorted(x: seq<int>, y: seq<int>, i: nat, j: nat)
    requires i <= |x| && j <= |y|
    requires Sorted(x) && Sorted(y)
    ensures Sorted(MergedFrom(x, y, i, j))
    ensures |MergedFrom(x, y, i, j)| > 0 ==>
      (i < |x| && MergedFrom(x, y, i, j)[0] == x[i]) || (j < |y| && MergedFrom(x, y, i, j)[0] == y[j])
    decreases |x| - i + |y| - j
  {
    var r := MergedFrom(x, y, i, j);
    if i == |x| || j == |y| {
    } else if x[i] <= y[j] {
      MergedFromSorted(x, y, i + 1, j);
      var rest := MergedFrom(x, y, i + 1, j);
      assert r == [x[i]] + rest;
      // the head of the rest is x[i + 1] or y[j], both at least x[i]
      assert |rest| > 0 ==> x[i] <= rest[0];
    } else {
      MergedFromSorted(x, y, i, j + 1);
      var rest := MergedFrom(x, y, i, j + 1);
      assert r == [y[j]] + rest;
      assert |rest| > 0 ==> y[j] <= rest[0];
    }
  }

  /** Merging two sorted runs gives a sorted permutation of both. */
  lemma MergedSortedPerm(x: seq<int>, y: seq<int>)
    requires Sorted(x) && Sorted(y)
    ensures Sorted(Merged(x, y))
    ensures multiset(Merged(x, y)) == multiset(x) + multiset(y)
  {
    MergedFromSorted(x, y, 0, 0);
    MergedFromPerm(x, y, 0, 0);
    assert x[0..] == x && y[0..] == y;
  }

  /** One step of the merge loop: if the rest of the merge `m[d..]` is the
      merge of `x[i..]` and `y[j..]` and the left head is taken, then `m[d]`
      is that head and the merge of what remains is `m[d + 1..]`. */
  lemma MergedTakeLeft(m: seq<int>, x: seq<int>, y: seq<int>, i: nat, j: nat, d: nat)
    requires i < |x| && j < |y| && d <= |m|
    requires m[d..] == MergedFrom(x, y, i, j)
    requires x[i] <= y[j]
    ensures d < |m| && m[d] == x[i] && m[d + 1..] == MergedFrom(x, y, i + 1, j)
  {
    assert m[d..][1..] == m[d + 1..];
  }

  /** The same step taking the right head. */
  lemma MergedTakeRight(m: seq<int>, x: seq<int>, y: seq<int>, i: nat, j: nat, d: nat)
    requires i < |x| && j < |y| && d <= |m|
    requires m[d..] == MergedFrom(x, y, i, j)
    requires x[i] > y[j]
    ensures d < |m| && m[d] == y[j] && m[d + 1..] == MergedFrom(x, y, i, j + 1)
  {
    assert m[d..][1..] == m[d + 1..];
  }

  /** Cutting a slice at an inner point. */
  lemma SliceJoin(s: seq<int>, a: nat, b: nat, c: nat)
    requires a <= b <= c <= |s|
    ensures s[a..c] == s[a..b] + s[b..c]
  {
  }

  /** A `*d++ = *s++` loop: copies `count` elements from `src[from..]` to
      `dst[to..]` and changes nothing else. It is the two tail loops of the
      merge and the copy back of `merge`. */
  method CopyRun(src: array<int>, from: nat, count: nat, dst: array<int>, to: nat)
    requires src != dst
    requires from + count <= src.Length && to + count <= dst.Length
    modifies dst
    ensures dst[to..to + count] == src[from..from + count]
    ensures SameOutside(dst[..], old(dst[..]), to, to + count)
    ensures src[..] == old(src[..])
  {
    var k := 0;
    while k < count
      invariant 0 <= k <= count
      invariant forall m :: to <= m < to + k ==> dst[m] == src[from + (m - to)]
      invariant SameOutside(dst[..], old(dst[..]), to, to + count)
    {
      dst[to + k] := src[from + k];
      k := k + 1;
    }
  }

  /** Once one run is exhausted, the rest of the merge is the rest of the
      other run. */
  lemma MergedFromExhausted(x: seq<int>, y: seq<int>, i: nat, j: nat)
    requires i <= |x| && j <= |y| && (i == |x| || j == |y|)
    ensures MergedFrom(x, y, i, j) == x[i..] + y[j..]
  {
  }

  /** The two tail loops of the merge: copy what is left of the left run
      `src[lo + i..lo + n1)` and then what is left of the right run
      `src[lo + n1 + j..lo + n1 + n2)` to `dst` from `dlo + i + j` on. At most
      one of them is non-empty when the merge loop has stopped, but both
      loops are run, as in the C code. */
  method CopyTails(src: array<int>, lo: nat, n1: nat, n2: nat, dst: array<int>, dlo: nat, i: nat, j: nat)
    requires src != dst
    requires i <= n1 && j <= n2
    requires lo + n1 + n2 <= src.Length && dlo + n1 + n2 <= dst.Length
    modifies dst
    ensures dst[dlo + i + j..dlo + n1 + n2] == src[lo + i..lo + n1] + src[lo + n1 + j..lo + n1 + n2]
    ensures SameOutside(dst[..], old(dst[..]), dlo + i + j, dlo + n1 + n2)
    ensures src[..] == old(src[..])
  {
    var p := dlo + i + j;
    var q := p + (n1 - i);
    ghost var b0 := dst[..];
    CopyRun(src, lo + i, n1 - i, dst, p);
    ghost var b1 := dst[..];
    CopyRun(src, lo + n1 + j, n2 - j, dst, q);
    TwoCopies(b0, b1, dst[..], src[..], p, q, lo + i, n1 - i, lo + n1 + j, n2 - j);
    assert q + (n2 - j) == dlo + n1 + n2 && lo + i + (n1 - i) == lo + n1 && lo + n1 + j + (n2 - j) == lo + n1 + n2;
  }

  /** Two copies into adjacent windows `[p, q)` and `[q, q + c2)` leave their
      concatenation there. */
  lemma TwoCopies(b0: seq<int>, b1: seq<int>, b2: seq<int>, src: seq<int>,
                  p: nat, q: nat, f1: nat, c1: nat, f2: nat, c2: nat)
    requires q == p + c1 && q + c2 <= |b1| && f1 + c1 <= |src| && f2 + c2 <= |src|
    requires SameOutside(b1, b0, p, p + c1) && b1[p..p + c1] == src[f1..f1 + c1]
    requires SameOutside(b2, b1, q, q + c2) && b2[q..q + c2] == src[f2..f2 + c2]
    ensures b2[p..q + c2] == src[f1..f1 + c1] + src[f2..f2 + c2]
    ensures SameOutside(b2, b0, p, q + c2)
  {
    OutsideSliceUnchanged(b2, b1, q, q + c2, p, q);
    SliceJoin(b2, p, q, q + c2);
  }

  /** Why the tail copies finish the merge: when the merge loop stops with
      one run exhausted, having written the first `i + j` elements of the
      merge to `b0`, and the tail copies then write what is left of both runs
      after them, the whole window holds the merge. */
  lemma TailsCompleteMerge(src: seq<int>, b0: seq<int>, b2: seq<int>, x: seq<int>, y: seq<int>, m: seq<int>,
                           lo: nat, n1: nat, n2: nat, dlo: nat, i: nat, j: nat, d: nat)
    requires lo + n1 + n2 <= |src| && dlo + n1 + n2 <= |b0|
    requires x == src[lo..lo + n1] && y == src[lo + n1..lo + n1 + n2]
    requires i <= n1 && j <= n2 && (i == n1 || j == n2) && d == i + j
    requires d <= |m| && b0[dlo..dlo + d] == m[..d]
    requires m[d..] == MergedFrom(x, y, i, j)
    requires SameOutside(b2, b0, dlo + i + j, dlo + n1 + n2)
    requires b2[dlo + i + j..dlo + n1 + n2] == src[lo + i..lo + n1] + src[lo + n1 + j..lo + n1 + n2]
    ensures b2[dlo..dlo + n1 + n2] == m
  {
    MergedFromExhausted(x, y, i, j);
    TailsAsMerge(src, x, y, m, lo, n1, n2, i, j, d);
    assert dlo + d == dlo + i + j;
    PrefixKept(b0, b2, m, dlo, d, dlo + n1 + n2);
    SliceJoin(b2, dlo, dlo + d, dlo + n1 + n2);
    assert m == m[..d] + m[d..];
  }

  /** The first `d` merged elements, written to `b0` before the tail copies,
      are still in place afterwards. */
  lemma PrefixKept(b0: seq<int>, b2: seq<int>, m: seq<int>, dlo: nat, d: nat, hi: nat)
    requires dlo + d <= hi <= |b0| && d <= |m|
    requires b0[dlo..dlo + d] == m[..d]
    requires SameOutside(b2, b0, dlo + d, hi)
    ensures b2[dlo..dlo + d] == m[..d]
  {
    OutsideSliceUnchanged(b2, b0, dlo + d, hi, dlo, dlo + d);
  }

  /** With one run exhausted, the rest of the merge is the two leftover
      pieces of the source window. */
  lemma TailsAsMerge(src: seq<int>, x: seq<int>, y: seq<int>, m: seq<int>,
                     lo: nat, n1: nat, n2: nat, i: nat, j: nat, d: nat)
    requires lo + n1 + n2 <= |src| && i <= n1 && j <= n2
    requires x == src[lo..lo + n1] && y == src[lo + n1..lo + n1 + n2]
    requires d <= |m| && m[d..] == MergedFrom(x, y, i, j)
    requires MergedFrom(x, y, i, j) == x[i..] + y[j..]
    ensures m[d..] == src[lo + i..lo + n1] + src[lo + n1 + j..lo + n1 + n2]
  {
    assert x[i..] == src[lo + i..lo + n1] && y[j..] == src[lo + n1 + j..lo + n1 + n2];
  }

  /** `xmerge(src, n1, n2, dst)`: merges the adjacent runs `src[0..n1)` and
      `src[n1..n1+n2)` into `dst[0..n1+n2)` with three cursors, and leaves
      the result there (no copy back). Nothing else of `dst` changes, and
      `src` is only read. */
  method XMerge(src: array<int>, lo: nat, n1: nat, n2: nat, dst: array<int>, dlo: nat)
    requires src != dst
    requires lo + n1 + n2 <= src.Length && dlo + n1 + n2 <= dst.Length
    modifies dst
    ensures dst[dlo..dlo + n1 + n2] == Merged(src[lo..lo + n1], src[lo + n1..lo + n1 + n2])
    ensures SameOutside(dst[..], old(dst[..]), dlo, dlo + n1 + n2)
  {
    ghost var x := src[lo..lo + n1];
    ghost var y := src[lo + n1..lo + n1 + n2];
    ghost var m := Merged(x, y);
    // the C cursors are s1 = src + lo + i, s2 = src + lo + n1 + j, d = dst + dlo + d
    var i, j, d := 0, 0, 0;
    while i < n1 && j < n2
      invariant 0 <= i <= n1 && 0 <= j <= n2 && d == i + j
      invariant forall k :: 0 <= k < d ==> dst[dlo + k] == m[k]
      invariant m[d..] == MergedFrom(x, y, i, j)
      invariant SameOutside(dst[..], old(dst[..]), dlo, dlo + n1 + n2)
      invariant x == src[lo..lo + n1] && y == src[lo + n1..lo + n1 + n2]
    {
      ghost var before := dst[..];
      var v;
      if src[lo + i] <= src[lo + n1 + j] {
        MergedTakeLeft(m, x, y, i, j, d);
        v := src[lo + i];
        i := i + 1;
      } else {
        MergedTakeRight(m, x, y, i, j, d);
        v := src[lo + n1 + j];
        j := j + 1;
      }
      dst[dlo + d] := v;
      MergeStepKeeps(before, dst[..], old(dst[..]), m, dlo, d, dlo + n1 + n2, v);
      d := d + 1;
    }
    FinishMerge(src, lo, n1, n2, dst, dlo, i, j, d, x, y, m, old(dst[..]));
  }

  /** What the tail loops of `xmerge` achieve: from the state in which the
      merge loop stops (one run exhausted, the first `d` merged elements in
      place) they complete the merge in the window, still writing nothing
      outside it. */
  method FinishMerge(src: array<int>, lo: nat, n1: nat, n2: nat, dst: array<int>, dlo: nat,
                     i: nat, j: nat, d: nat, ghost x: seq<int>, ghost y: seq<int>, ghost m: seq<int>,
                     ghost orig: seq<int>)
    requires src != dst
    requires lo + n1 + n2 <= src.Length && dlo + n1 + n2 <= dst.Length
    requires x == src[lo..lo + n1] && y == src[lo + n1..lo + n1 + n2]
    requires i <= n1 && j <= n2 && (i == n1 || j == n2) && d == i + j
    requires d <= |m| && forall k :: 0 <= k < d ==> dst[dlo + k] == m[k]
    requires m[d..] == MergedFrom(x, y, i, j)
    requires SameOutside(dst[..], orig, dlo, dlo + n1 + n2)
    modifies dst
    ensures dst[dlo..dlo + n1 + n2] == m
    ensures SameOutside(dst[..], orig, dlo, dlo + n1 + n2)
    ensures src[..] == old(src[..])
  {
    ghost var b0 := dst[..];
    PrefixAsSlice(b0, m, dlo, d);
    CopyTails(src, lo, n1, n2, dst, dlo, i, j);
    TailsCompleteMerge(src[..], b0, dst[..], x, y, m, lo, n1, n2, dlo, i, j, d);
    SameOutsideTrans(dst[..], b0, orig, dlo, dlo + n1 + n2, dlo + i + j, dlo + n1 + n2);
  }

  /** One pass of the merge loop writes the next merged element `m[d]` at
      `dlo + d`: the written prefix grows by one and nothing outside the
      window changes. */
  lemma MergeStepKeeps(b: seq<int>, b1: seq<int>, b0: seq<int>, m: seq<int>, dlo: nat, d: nat, hi: nat, v: int)
    requires dlo + d < hi <= |b| && d < |m| && v == m[d]
    requires forall k :: 0 <= k < d ==> b[dlo + k] == m[k]
    requires SameOutside(b, b0, dlo, hi)
    requires b1 == b[dlo + d := v]
    ensures forall k :: 0 <= k < d + 1 ==> b1[dlo + k] == m[k]
    ensures SameOutside(b1, b0, dlo, hi)
  {
  }

  /** The merged prefix, stated element by element, as a slice. */
  lemma PrefixAsSlice(b: seq<int>, m: seq<int>, dlo: nat, d: nat)
    requires dlo + d <= |b| && d <= |m|
    requires forall k :: 0 <= k < d ==> b[dlo + k] == m[k]
    ensures b[dlo..dlo + d] == m[..d]
  {
  }

  /** `merge(src, n1, n2, scratch)`: the same merge into `scratch`, followed
      by the copy of `scratch[0..n)` back over `src[0..n)`. */
  method Merge(src: array<int>, lo: nat, n1: nat, n2: nat, scratch: array<int>, slo: nat)
    requires src != scratch
    requires lo + n1 + n2 <= src.Length && slo + n1 + n2 <= scratch.Length
    modifies src, scratch
    ensures src[lo..lo + n1 + n2] == Merged(old(src[lo..lo + n1]), old(src[lo + n1..lo + n1 + n2]))
    ensures scratch[slo..slo + n1 + n2] == src[lo..lo + n1 + n2]
    ensures SameOutside(src[..], old(src[..]), lo, lo + n1 + n2)
    ensures SameOutside(scratch[..], old(scratch[..]), slo, slo + n1 + n2)
  {
    XMerge(src, lo, n1, n2, scratch, slo);
    CopyRun(scratch, slo, n1 + n2, src, lo);
  }

  /** The `n == 2` case: after the conditional swap the pair is in order,
      and swapping or not permutes it. */
  lemma PairSorted(after: seq<int>, before: seq<int>, lo: nat)
    requires lo + 2 <= |before| && |after| == |before|
    requires forall k :: 0 <= k < |after| && k != lo && k != lo + 1 ==> after[k] == before[k]
    requires (after[lo] == before[lo] && after[lo + 1] == before[lo + 1])
      || (after[lo] == before[lo + 1] && after[lo + 1] == before[lo])
    requires after[lo] <= after[lo + 1]
    ensures SortsWindow(after, before, lo, lo + 2)
  {
    assert after[lo..lo + 2] == [after[lo], after[lo + 1]];
    assert before[lo..lo + 2] == [before[lo], before[lo + 1]];
  }

  /** The two-element case `if (*p > *(p + 1)) pswap(p, p + 1)` shared by
      `rmsort`, `msort`, `xrmsort` and `xmsort`: it sorts the pair in place. */
  method OrderPair(a: array<int>, lo: nat)
    requires lo + 2 <= a.Length
    modifies a
    ensures SortsWindow(a[..], old(a[..]), lo, lo + 2)
  {
    if a[lo] > a[lo + 1] {
      PSwap(a, lo, lo + 1);
    }
    PairSorted(a[..], old(a[..]), lo);
  }

  /** One level of merge sort: the left half `[lo, lo + n1)` is sorted in
      place, then the right half `[lo + n1, lo + n1 + n2)`, then the two are
      merged over the window; the result is a sorted permutation of the
      original window. */
  lemma MergeSortLevel(a0: seq<int>, a1: seq<int>, a2: seq<int>, a3: seq<int>, lo: nat, n1: nat, n2: nat, n: nat)
    requires n == n1 + n2 && lo + n <= |a0|
    requires SortedInPlace(a1, a0, lo, lo + n1)
    requires SortedInPlace(a2, a1, lo + n1, lo + n1 + n2)
    requires SameOutside(a3, a2, lo, lo + n1 + n2)
    requires a3[lo..lo + n1 + n2] == Merged(a2[lo..lo + n1], a2[lo + n1..lo + n1 + n2])
    ensures SortedInPlace(a3, a0, lo, lo + n)
  {
    MergeSortHalves(a0, a1, a2, a3, lo, n1, n2, n);
    WindowAsInPlace(a3, a0, lo, lo + n);
  }

  /** `MergeSortWindows` from halves sorted in place. */
  lemma MergeSortHalves(a0: seq<int>, a1: seq<int>, a2: seq<int>, a3: seq<int>, lo: nat, n1: nat, n2: nat, n: nat)
    requires n == n1 + n2 && lo + n <= |a0|
    requires SortedInPlace(a1, a0, lo, lo + n1)
    requires SortedInPlace(a2, a1, lo + n1, lo + n1 + n2)
    requires SameOutside(a3, a2, lo, lo + n1 + n2)
    requires a3[lo..lo + n1 + n2] == Merged(a2[lo..lo + n1], a2[lo + n1..lo + n1 + n2])
    ensures SortsWindow(a3, a0, lo, lo + n)
  {
    InPlaceAsWindow(a1, a0, lo, lo + n1);
    InPlaceAsWindow(a2, a1, lo + n1, lo + n1 + n2);
    MergeSortWindows(a0, a1, a2, a3, lo, n1, n2, n);
  }

  /** `MergeSortLevel` with each step stated as a sorted permutation of a
      slice. */
  lemma MergeSortWindows(a0: seq<int>, a1: seq<int>, a2: seq<int>, a3: seq<int>, lo: nat, n1: nat, n2: nat, n: nat)
    requires n == n1 + n2 && lo + n <= |a0|
    requires SortsWindow(a1, a0, lo, lo + n1)
    requires SortsWindow(a2, a1, lo + n1, lo + n1 + n2)
    requires SameOutside(a3, a2, lo, lo + n1 + n2)
    requires a3[lo..lo + n1 + n2] == Merged(a2[lo..lo + n1], a2[lo + n1..lo + n1 + n2])
    ensures SortsWindow(a3, a0, lo, lo + n)
  {
    OutsideSliceUnchanged(a2, a1, lo + n1, lo + n1 + n2, lo, lo + n1);
    OutsideSliceUnchanged(a1, a0, lo, lo + n1, lo + n1, lo + n1 + n2);
    MergeLevelRuns(a0, a1, a2, a3, lo, n1, n2);
    LevelFrame(a0, a1, a2, a3, lo, n1, n2, n);
    assert SortsWindow(a3, a0, lo, lo + n1 + n2);
    assert lo + n == lo + n1 + n2;
  }

  /** The core of `MergeSortLevel`, once the frame facts are reduced to the
      two slices that matter. */
  lemma MergeLevelRuns(a0: seq<int>, a1: seq<int>, a2: seq<int>, a3: seq<int>, lo: nat, n1: nat, n2: nat)
    requires lo + n1 + n2 <= |a0| && lo + n1 + n2 <= |a1| && lo + n1 + n2 <= |a2| && lo + n1 + n2 <= |a3|
    requires Sorted(a1[lo..lo + n1]) && multiset(a1[lo..lo + n1]) == multiset(a0[lo..lo + n1])
    requires Sorted(a2[lo + n1..lo + n1 + n2])
    requires multiset(a2[lo + n1..lo + n1 + n2]) == multiset(a1[lo + n1..lo + n1 + n2])
    requires a2[lo..lo + n1] == a1[lo..lo + n1]
    requires a1[lo + n1..lo + n1 + n2] == a0[lo + n1..lo + n1 + n2]
    requires a3[lo..lo + n1 + n2] == Merged(a2[lo..lo + n1], a2[lo + n1..lo + n1 + n2])
    ensures Sorted(a3[lo..lo + n1 + n2]) && multiset(a3[lo..lo + n1 + n2]) == multiset(a0[lo..lo + n1 + n2])
  {
    SliceJoin(a0, lo, lo + n1, lo + n1 + n2);
    MergeOfSortedRuns(a1[lo..lo + n1], a2[lo + n1..lo + n1 + n2], a0[lo..lo + n1], a0[lo + n1..lo + n1 + n2],
                      a0[lo..lo + n1 + n2], a3[lo..lo + n1 + n2]);
  }

  /** Every step of one level writes only inside the level's window. */
  lemma LevelFrame(s0: seq<int>, s1: seq<int>, s2: seq<int>, s3: seq<int>, lo: nat, n1: nat, n2: nat, n: nat)
    requires n == n1 + n2 && lo + n <= |s0|
    requires SameOutside(s1, s0, lo, lo + n1)
    requires SameOutside(s2, s1, lo + n1, lo + n1 + n2)
    requires SameOutside(s3, s2, lo, lo + n1 + n2)
    ensures SameOutside(s3, s0, lo, lo + n)
  {
  }

  /** `rmsort(p, n, s)`: recursive merge sort over `[lo, lo + n)` using the
      scratch window `[slo, slo + n)`; the left half sorts with scratch `s`
      and the right half with `s + half`, so the halves never share scratch.
      The commented-out `n < 2` guard is not needed: for `n` of 0 or 1 the
      merge of an empty run with the rest leaves the window as it was. */
  method RMSort(a: array<int>, lo: nat, n: nat, s: array<int>, slo: nat)
    requires a != s
    requires lo + n <= a.Length && slo + n <= s.Length
    modifies a, s
    ensures SortedInPlace(a[..], old(a[..]), lo, lo + n)
    ensures SameOutside(s[..], old(s[..]), slo, slo + n)
    decreases n
  {
    if n == 2 {
      OrderPair(a, lo);
      WindowAsInPlace(a[..], old(a[..]), lo, lo + 2);
    } else {
      var half := n / 2;
      var otherhalf := half + (if n % 2 == 1 then 1 else 0);
      assert half + otherhalf == n && half <= otherhalf <= half + 1;
      ghost var a0, s0 := a[..], s[..];
      if half > 1 {
        RMSort(a, lo, half, s, slo);
      } else {
        ShortSortedInPlace(a[..], lo, lo + half);
      }
      ghost var a1, s1 := a[..], s[..];
      if otherhalf > 1 {
        RMSort(a, lo + half, otherhalf, s, slo + half);
      } else {
        ShortSortedInPlace(a[..], lo + half, lo + half + otherhalf);
      }
      ghost var a2, s2 := a[..], s[..];
      Merge(a, lo, half, otherhalf, s, slo);
      MergeSortLevel(a0, a1, a2, a[..], lo, half, otherhalf, n);
      LevelFrame(s0, s1, s2, s[..], slo, half, otherhalf, n);
    }
  }

  /** `msort(p, n)`: nothing for `n < 2`, one conditional swap for `n == 2`,
      otherwise `rmsort` with a freshly allocated scratch buffer of length
      `n` (the allocation failure path is not modelled). */
  method MSort(a: array<int>, n: nat)
    requires n <= a.Length
    modifies a
    ensures Sorted(a[..n])
    ensures multiset(a[..n]) == multiset(old(a[..n]))
    ensures SameOutside(a[..], old(a[..]), 0, n)
  {
    if n < 2 {
      return;
    }
    if n == 2 {
      OrderPair(a, 0);
      assert a[..n] == a[0..0 + 2] && old(a[..n]) == old(a[0..0 + 2]);
      return;
    }
    var scratch := new int[n];
    RMSort(a, 0, n, scratch, 0);
    InPlaceAsWindow(a[..], old(a[..]), 0, n);
    assert a[..n] == a[0..0 + n];
  }

  /** A single element, copied or left in place, is a sorted run. */
  lemma SingletonSorted(dst: seq<int>, dlo: nat, src: seq<int>, lo: nat)
    requires dlo < |dst| && lo < |src| && dst[dlo] == src[lo]
    ensures HoldsSortedPerm(dst, dlo, src, lo, 1)
  {
    assert dst[dlo..dlo + 1] == [src[lo]] == src[lo..lo + 1];
  }

  /** One level of the ping-pong merge sort: the left half's sorted result
      lies at `b1[h..h + n1)`, the right half's at `b2[h + n1..h + n)`,
      computing the right one wrote nothing outside its own windows, and the
      final merge writes `r[d..d + n)` from `b2`. Then `r[d..d + n)` holds the
      original window `a0[lo..lo + n)` sorted. (`b` is the scratch buffer at
      phase 0 and the data buffer at phase 1.) */
  lemma PingPongLevel(a0: seq<int>, a1: seq<int>, b1: seq<int>, b2: seq<int>, r: seq<int>,
                      lo: nat, h: nat, d: nat, n1: nat, n2: nat, n: nat)
    requires n == n1 + n2 && lo + n <= |a0| && h + n <= |b1| && d + n <= |r|
    requires SameOutside(a1, a0, lo, lo + n1)
    requires HoldsSortedPerm(b1, h, a0, lo, n1)
    requires HoldsSortedPerm(b2, h + n1, a1, lo + n1, n2)
    requires SameOutside(b2, b1, h + n1, h + n1 + n2)
    requires r[d..d + n1 + n2] == Merged(b2[h..h + n1], b2[h + n1..h + n1 + n2])
    ensures HoldsSortedPerm(r, d, a0, lo, n)
  {
    OutsideSliceUnchanged(b2, b1, h + n1, h + n1 + n2, h, h + n1);
    OutsideSliceUnchanged(a1, a0, lo, lo + n1, lo + n1, lo + n1 + n2);
    MergeRuns(a0, a1, b1, b2, r, lo, h, d, n1, n2);
  }

  /** The core of `PingPongLevel`, once the frame facts are reduced to the
      two slices that matter. */
  lemma MergeRuns(a0: seq<int>, a1: seq<int>, b1: seq<int>, b2: seq<int>, r: seq<int>,
                  lo: nat, h: nat, d: nat, n1: nat, n2: nat)
    requires HoldsSortedPerm(b1, h, a0, lo, n1)
    requires HoldsSortedPerm(b2, h + n1, a1, lo + n1, n2)
    requires h + n1 <= |b2| && lo + n1 + n2 <= |a0| && d + n1 + n2 <= |r|
    requires b2[h..h + n1] == b1[h..h + n1]
    requires a1[lo + n1..lo + n1 + n2] == a0[lo + n1..lo + n1 + n2]
    requires r[d..d + n1 + n2] == Merged(b2[h..h + n1], b2[h + n1..h + n1 + n2])
    ensures HoldsSortedPerm(r, d, a0, lo, n1 + n2)
  {
    SliceJoin(a0, lo, lo + n1, lo + n1 + n2);
    MergeOfSortedRuns(b1[h..h + n1], b2[h + n1..h + n1 + n2], a0[lo..lo + n1], a1[lo + n1..lo + n1 + n2],
                      a0[lo..lo + n1 + n2], r[d..d + n1 + n2]);
  }

  /** Merging sorted arrangements of two runs sorts their concatenation. */
  lemma MergeOfSortedRuns(left: seq<int>, right: seq<int>, l0: seq<int>, r0: seq<int>, w0: seq<int>, m: seq<int>)
    requires Sorted(left) && multiset(left) == multiset(l0)
    requires Sorted(right) && multiset(right) == multiset(r0)
    requires w0 == l0 + r0 && m == Merged(left, right)
    ensures Sorted(m) && multiset(m) == multiset(w0)
  {
    MergedSortedPerm(left, right);
  }

  /** What `xrmsort` at `phase` leaves behind, from the data window
      `a0[lo..lo + n)` and scratch window `s0[slo..slo + n)`: the sorted
      original window in the data buffer at phase 0 (false) and in the
      scratch buffer at phase 1 (true), and nothing written outside the two
      windows. */
  ghost predicate PhaseResult(a1: seq<int>, s1: seq<int>, a0: seq<int>, s0: seq<int>,
                              lo: int, slo: int, n: int, phase: bool)
  {
    SameOutside(a1, a0, lo, lo + n) && SameOutside(s1, s0, slo, slo + n)
    && (if phase then HoldsSortedPerm(s1, slo, a0, lo, n) else HoldsSortedPerm(a1, lo, a0, lo, n))
  }

  /** One level of `xrmsort` at phase 0: both halves were sorted at phase 1,
      so their results lie side by side in the scratch buffer, and the final
      `xmerge(s, half, otherhalf, p)` writes the merge into the data buffer. */
  lemma PhaseLevelIntoData(a0: seq<int>, s0: seq<int>, a1: seq<int>, s1: seq<int>, a2: seq<int>, s2: seq<int>,
                           a3: seq<int>, lo: nat, slo: nat, n1: nat, n2: nat, n: nat)
    requires n == n1 + n2 && lo + n <= |a0| && slo + n <= |s0|
    requires PhaseResult(a1, s1, a0, s0, lo, slo, n1, true)
    requires PhaseResult(a2, s2, a1, s1, lo + n1, slo + n1, n2, true)
    requires SameOutside(a3, a2, lo, lo + n1 + n2)
    requires a3[lo..lo + n1 + n2] == Merged(s2[slo..slo + n1], s2[slo + n1..slo + n1 + n2])
    ensures PhaseResult(a3, s2, a0, s0, lo, slo, n, false)
  {
    PingPongLevel(a0, a1, s1, s2, a3, lo, slo, lo, n1, n2, n);
    LevelFrame(a0, a1, a2, a3, lo, n1, n2, n);
    LevelFrame(s0, s1, s2, s2, slo, n1, n2, n);
  }

  /** One level of `xrmsort` at phase 1: both halves were sorted at phase 0,
      in place, and the final `xmerge(p, half, otherhalf, s)` writes the merge
      into the scratch buffer. */
  lemma PhaseLevelIntoScratch(a0: seq<int>, s0: seq<int>, a1: seq<int>, s1: seq<int>, a2: seq<int>, s2: seq<int>,
                              s3: seq<int>, lo: nat, slo: nat, n1: nat, n2: nat, n: nat)
    requires n == n1 + n2 && lo + n <= |a0| && slo + n <= |s0|
    requires PhaseResult(a1, s1, a0, s0, lo, slo, n1, false)
    requires PhaseResult(a2, s2, a1, s1, lo + n1, slo + n1, n2, false)
    requires SameOutside(s3, s2, slo, slo + n1 + n2)
    requires s3[slo..slo + n1 + n2] == Merged(a2[lo..lo + n1], a2[lo + n1..lo + n1 + n2])
    ensures PhaseResult(a2, s3, a0, s0, lo, slo, n, true)
  {
    PingPongLevel(a0, a1, a1, a2, s3, lo, lo, slo, n1, n2, n);
    LevelFrame(a0, a1, a2, a2, lo, n1, n2, n);
    LevelFrame(s0, s1, s2, s3, slo, n1, n2, n);
  }

  /** The one-element cases: at phase 1 the element is copied to the
      scratch buffer (`*s = *p`); at phase 0 the copy may happen or not. */
  lemma PhaseSingleton(a0: seq<int>, s0: seq<int>, s1: seq<int>, lo: nat, slo: nat, phase: bool)
    requires lo < |a0| && slo < |s0|
    requires s1 == s0[slo := a0[lo]] || (!phase && s1 == s0)
    ensures PhaseResult(a0, s1, a0, s0, lo, slo, 1, phase)
  {
    if phase {
      SingletonSorted(s1, slo, a0, lo);
    } else {
      SingletonSorted(a0, lo, a0, lo);
    }
  }

  /** The two-element case: the pair is put in order in place and, at
      phase 1, copied out to the scratch buffer. */
  lemma PhasePair(a0: seq<int>, s0: seq<int>, a1: seq<int>, s1: seq<int>, lo: nat, slo: nat, phase: bool)
    requires lo + 2 <= |a0| && slo + 2 <= |s0|
    requires SortsWindow(a1, a0, lo, lo + 2)
    requires phase ==> s1 == s0[slo := a1[lo]][slo + 1 := a1[lo + 1]]
    requires !phase ==> s1 == s0
    ensures PhaseResult(a1, s1, a0, s0, lo, slo, 2, phase)
  {
    if phase {
      assert s1[slo..slo + 2] == a1[lo..lo + 2];
    }
  }

  /** `xrmsort(p, n, s, phase)`: ping-pong merge sort. With `phase` false
      (the C value 0) the sorted permutation of the original `p[0..n)` ends
      in `p[0..n)`; with `phase` true (nonzero) it ends in `s[0..n)`. The
      recursive calls run with the flipped phase, so the halves' results lie
      in the buffer the final `xmerge` reads from; a left half of one
      element is copied to `s` whatever the phase. Only the two windows are
      written. */
  method XRMSort(a: array<int>, lo: nat, n: nat, s: array<int>, slo: nat, phase: bool)
    requires a != s
    requires 1 <= n
    requires lo + n <= a.Length && slo + n <= s.Length
    modifies a, s
    ensures PhaseResult(a[..], s[..], old(a[..]), old(s[..]), lo, slo, n, phase)
    decreases n
  {
    if n == 1 {
      if phase {
        s[slo] := a[lo];
      }
      PhaseSingleton(a[..], old(s[..]), s[..], lo, slo, phase);
    } else if n == 2 {
      OrderPair(a, lo);
      ghost var a1 := a[..];
      if phase {
        s[slo] := a[lo];
        s[slo + 1] := a[lo + 1];
      }
      PhasePair(old(a[..]), old(s[..]), a1, s[..], lo, slo, phase);
    } else {
      var newphase := !phase;
      var half := n / 2;
      var otherhalf := half + (if n % 2 == 1 then 1 else 0);
      assert half + otherhalf == n && 1 <= half <= otherhalf <= half + 1;
      ghost var a0, s0 := a[..], s[..];
      if half > 1 {
        XRMSort(a, lo, half, s, slo, newphase);
      } else {
        s[slo] := a[lo];
        PhaseSingleton(a0, s0, s[..], lo, slo, newphase);
      }
      ghost var a1, s1 := a[..], s[..];
      if otherhalf <= 1 {
        // the `exit(0)` branch: n >= 3 gives otherhalf >= 2
        assert false;
      }
      XRMSort(a, lo + half, otherhalf, s, slo + half, newphase);
      ghost var a2, s2 := a[..], s[..];
      if !phase {
        XMerge(s, slo, half, otherhalf, a, lo);
        PhaseLevelIntoData(a0, s0, a1, s1, a2, s2, a[..], lo, slo, half, otherhalf, n);
      } else {
        XMerge(a, lo, half, otherhalf, s, slo);
        PhaseLevelIntoScratch(a0, s0, a1, s1, a2, s2, s[..], lo, slo, half, otherhalf, n);
      }
    }
  }

  /** `xmsort(p, n)`: like `msort`, but runs `xrmsort` at phase 0, which
      leaves the sorted result in the caller's buffer. */
  method XMSort(a: array<int>, n: nat)
    requires n <= a.Length
    modifies a
    ensures Sorted(a[..n])
    ensures multiset(a[..n]) == multiset(old(a[..n]))
    ensures SameOutside(a[..], old(a[..]), 0, n)
  {
    if n < 2 {
      return;
    }
    if n == 2 {
      OrderPair(a, 0);
      assert a[..n] == a[0..0 + 2] && old(a[..n]) == old(a[0..0 + 2]);
      return;
    }
    var scratch := new int[n];
    XRMSort(a, 0, n, scratch, 0, false);
    assert a[..n] == a[0..0 + n];
  }
}
