/**
 The two Python string built-ins the transcoder relies on: `str.find` and
 slicing with (possibly negative) bounds. Strings are sequences of code points.
 */
module PyStr {

  /** `w` occurs in `s` starting at index `k`. */
  predicate OccursAt(s: string, w: string, k: int) {
    0 <= k && k + |w| <= |s| && s[k..k + |w|] == w
  }

  /** `s.find(w, i)`: the least index `k >= i` at which `w` occurs, or -1. */
  function FindFrom(s: string, w: string, i: nat): (r: int)
    requires i <= |s|
    ensures r == -1 || (i <= r && OccursAt(s, w, r))
    ensures r >= 0 ==> forall k :: i <= k < r ==> !OccursAt(s, w, k)
    ensures r == -1 ==> forall k :: i <= k ==> !OccursAt(s, w, k)
    decreases |s| - i
  {
    if i + |w| > |s| then -1
    else if s[i..i + |w|] == w then i
    else FindFrom(s, w, i + 1)
  }

  /** `s.find(w)`: the first occurrence of `w` in `s`, or -1 when there is none.
      The empty string is found at 0. */
  function Find(s: string, w: string): (r: int)
    ensures -1 <= r
    ensures r == -1 <==> forall k :: !OccursAt(s, w, k)
    ensures r >= 0 ==> OccursAt(s, w, r) && forall k :: 0 <= k < r ==> !OccursAt(s, w, k)
  {
    FindFrom(s, w, 0)
  }

  /** How Python turns a slice bound into a position: a negative bound counts
      from the end, and the result is clamped into `[0, n]`. */
  function Bound(i: int, n: nat): (r: nat)
    ensures r <= n
    ensures 0 <= i <= n ==> r == i
    ensures i > n ==> r == n
    ensures i < 0 ==> r == if i + n < 0 then 0 else i + n
  {
    if i < 0 then (if i + n < 0 then 0 else i + n)
    else if i > n then n
    else i
  }

  /** `s[i:j]`; a slice whose end lies before its start is empty.
      `s[:j]` is `Slice(s, 0, j)` and `s[i:]` is `Slice(s, i, |s|)`. */
  function Slice(s: string, i: int, j: int): (r: string)
    ensures |r| <= |s|
    ensures 0 <= i <= j <= |s| ==> r == s[i..j]
    ensures j <= i && 0 <= j ==> r == []
  {
    var a := Bound(i, |s|);
    var b := Bound(j, |s|);
    if a <= b then s[a..b] else []
  }
}
