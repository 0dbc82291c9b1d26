/**
 A slice of a slice is a slice.
 */
module Slices {
  lemma SliceSlice<T>(s: seq<T>, a: nat, n: nat, i: nat, j: nat)
    requires a <= n <= |s| && i <= j <= n - a
    ensures s[a..n][i..j] == s[a + i..a + j]
  {
    var u, v := s[a..n][i..j], s[a + i..a + j];
    forall x | 0 <= x < |u| ensures u[x] == v[x] { assert s[a..n][i + x] == s[a + i + x]; }
  }
}
