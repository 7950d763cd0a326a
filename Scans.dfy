/** One-dimensional reductions over integer sequences: the minimum, the maximum,
    and the first position of the maximum or minimum (numpy's min, max, argmax
    and argmin over one axis). */
module Scans {

  /** The smallest element of a non-empty sequence. */
  function Min(s: seq<int>): (lo: int)
    requires |s| > 0
    ensures lo in s
    ensures forall k :: 0 <= k < |s| ==> lo <= s[k]
  {
    if |s| == 1 then s[0]
    else
      var rest := Min(s[..|s| - 1]);
      if s[|s| - 1] < rest then s[|s| - 1] else rest
  }

  /** The largest element of a non-empty sequence. */
  function Max(s: seq<int>): (hi: int)
    requires |s| > 0
    ensures hi in s
    ensures forall k :: 0 <= k < |s| ==> s[k] <= hi
  {
    if |s| == 1 then s[0]
    else
      var rest := Max(s[..|s| - 1]);
      if rest < s[|s| - 1] then s[|s| - 1] else rest
  }

  /** The first position holding the largest element: every earlier
      element is strictly smaller. */
  function ArgMax(s: seq<int>): (k: nat)
    requires |s| > 0
    ensures k < |s|
    ensures forall j :: 0 <= j < |s| ==> s[j] <= s[k]
    ensures forall j :: 0 <= j < k ==> s[j] < s[k]
  {
    if |s| == 1 then 0
    else
      var best := ArgMax(s[..|s| - 1]);
      if s[best] < s[|s| - 1] then |s| - 1 else best
  }

  /** The first position holding the smallest element: every earlier
      element is strictly larger. */
  function ArgMin(s: seq<int>): (k: nat)
    requires |s| > 0
    ensures k < |s|
    ensures forall j :: 0 <= j < |s| ==> s[k] <= s[j]
    ensures forall j :: 0 <= j < k ==> s[k] < s[j]
  {
    if |s| == 1 then 0
    else
      var best := ArgMin(s[..|s| - 1]);
      if s[|s| - 1] < s[best] then |s| - 1 else best
  }
}
