/** Removal from a fixed-capacity array with an occupied-count: the record at
    index `i` is dropped by shifting every later occupied record down one
    slot, so the occupied prefix stays gap-free and in order. Both fixed
    arrays of the client are compacted this way. */
module Compaction {

  method ShiftDown<T>(a: array<T>, i: nat, n: nat)
    requires i < n <= a.Length
    modifies a
    ensures a[..n - 1] == old(a[..n])[..i] + old(a[..n])[i + 1..]
    ensures a[n - 1..] == old(a[n - 1..])
  {
    var j := i;
    while j < n - 1
      invariant i <= j <= n - 1
      invariant forall k :: 0 <= k < i ==> a[k] == old(a[k])
      invariant forall k :: i <= k < j ==> a[k] == old(a[k + 1])
      invariant forall k :: j <= k < a.Length ==> a[k] == old(a[k])
    {
      a[j] := a[j + 1];
      j := j + 1;
    }
    ghost var shifted, expected := a[..n - 1], old(a[..n])[..i] + old(a[..n])[i + 1..];
    forall k | 0 <= k < n - 1
      ensures shifted[k] == expected[k]
    {
      if k >= i {
        assert a[k] == old(a[k + 1]);
      }
    }
    assert shifted == expected;
  }
}
