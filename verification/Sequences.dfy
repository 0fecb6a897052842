/** Searching a sequence from its front, as every scan and list walk does. */
module Sequences {
  /** Position of the first element with the property, or the length. */
  function FirstIndex<T>(s: seq<T>, p: T -> bool): (i: nat)
    ensures i <= |s|
    ensures i < |s| ==> p(s[i])
    ensures forall j | 0 <= j < i :: !p(s[j])
  {
    if s == [] || p(s[0]) then 0
    else
      var r := FirstIndex(s[1..], p);
      assert forall j | 0 < j < 1 + r :: s[j] == s[1..][j - 1];
      1 + r
  }
}
