/** The swap utility every in-place routine is built from (`pswap`). */
module Primitives {

  /** Exchanges `a[i]` and `a[j]`; `i == j` is allowed and changes nothing.
      The two C pointers become two indices into the same array. */
  method PSwap(a: array<int>, i: nat, j: nat)
    requires i < a.Length && j < a.Length
    modifies a
    ensures a[i] == old(a[j]) && a[j] == old(a[i])
    ensures forall k :: 0 <= k < a.Length && k != i && k != j ==> a[k] == old(a[k])
    ensures multiset(a[..]) == multiset(old(a[..]))
  {
    var t := a[i];
    a[i] := a[j];
    a[j] := t;
  }
}
