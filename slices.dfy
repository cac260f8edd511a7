/** Facts about cutting a text into consecutive slices, shared by the filters. */
module Slices {
  /** Three consecutive slices put back together give the prefix they cover. */
  lemma SliceParts<T>(s: seq<T>, i: nat, j: nat, k: nat)
    requires i <= j <= k <= |s|
    ensures s[..i] + s[i..j] + s[j..k] == s[..k]
  {
    assert s[..i] + s[i..j] == s[..j];
  }
}
