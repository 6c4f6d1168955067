/** Linear searches over a sequence: the first and the last element that
    satisfy a test, as an index. A `for` loop that returns at its first hit
    finds the first; a loop that keeps reassigning a variable on every hit
    ends up with the last. */
module Search {

  /** The index of the first element of `s` passing `p`, or `|s|` when none does. */
  function FirstWhere<T>(s: seq<T>, p: T -> bool): (r: nat)
    ensures r <= |s|
    ensures r < |s| ==> p(s[r])
    ensures forall k :: 0 <= k < r ==> !p(s[k])
  {
    if s == [] then 0
    else if p(s[0]) then 0
    else 1 + FirstWhere(s[1..], p)
  }

  /** The index of the last element of `s` passing `p`, or -1 when none does. */
  function LastWhere<T>(s: seq<T>, p: T -> bool): (r: int)
    ensures -1 <= r < |s|
    ensures r >= 0 ==> p(s[r])
    ensures forall k :: r < k < |s| ==> !p(s[k])
  {
    if s == [] then -1
    else if p(s[|s| - 1]) then |s| - 1
    else LastWhere(s[..|s| - 1], p)
  }

  /** The first hit is pinned down by where the search meets its first
      passing element: nothing before `i` passes and `s[i]` does. */
  lemma FirstWhereAt<T>(s: seq<T>, p: T -> bool, i: int)
    requires 0 <= i < |s| && p(s[i])
    requires forall k :: 0 <= k < i ==> !p(s[k])
    ensures FirstWhere(s, p) == i
  {
  }

  /** No element passes exactly when the search runs off the end. */
  lemma FirstWhereNone<T>(s: seq<T>, p: T -> bool)
    ensures FirstWhere(s, p) == |s| <==> forall k :: 0 <= k < |s| ==> !p(s[k])
  {
  }

  /** The last hit is pinned down the same way: `s[i]` passes and nothing
      after it does; `i == -1` when nothing passes. */
  lemma LastWhereAt<T>(s: seq<T>, p: T -> bool, i: int)
    requires -1 <= i < |s|
    requires i >= 0 ==> p(s[i])
    requires forall k :: i < k < |s| ==> !p(s[k])
    ensures LastWhere(s, p) == i
  {
  }
}
