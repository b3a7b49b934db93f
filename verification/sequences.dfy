/** Searching a sequence: `FirstOrDefault` over a list, and the lookup of a named attribute. */
module Sequences {

  /** The index of the first element that `matches`, or `|s|` when none does. */
  function FirstIndex<T>(s: seq<T>, matches: T -> bool): (k: nat)
    ensures k <= |s|
    ensures k < |s| ==> matches(s[k])
    ensures forall j :: 0 <= j < k ==> !matches(s[j])
    decreases |s|
  {
    if |s| == 0 then 0
    else if matches(s[0]) then 0
    else 1 + FirstIndex(s[1..], matches)
  }
}
