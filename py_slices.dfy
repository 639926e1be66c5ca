/**
  Python's slicing `s[:k]` and `s[k:]` for an integer bound `k`: a negative
  bound counts from the end, and every bound is clamped to `0 .. len(s)`.
*/
module PySlices {

  /** The index in `0 .. n` that a slice bound `k` stands for in a list of length `n`. */
  function SliceBound(n: nat, k: int): (r: nat)
    ensures r <= n
    ensures 0 <= k <= n ==> r == k
    ensures k > n ==> r == n
    ensures k < 0 ==> r + (-k) == n || (r == 0 && n < -k)
  {
    if k < 0 then (if n + k < 0 then 0 else n + k)
    else if k > n then n
    else k
  }

  /** `s[:k]` */
  function Take<T>(s: seq<T>, k: int): (r: seq<T>)
    ensures r <= s
    ensures |r| == SliceBound(|s|, k)
  {
    s[..SliceBound(|s|, k)]
  }

  /** `s[k:]` */
  function Drop<T>(s: seq<T>, k: int): (r: seq<T>)
    ensures |r| == |s| - SliceBound(|s|, k)
    ensures forall i :: 0 <= i < |r| ==> r[i] == s[SliceBound(|s|, k) + i]
  {
    s[SliceBound(|s|, k)..]
  }

  /** Splitting a list at any bound and concatenating the two slices gives the list back. */
  lemma TakeDrop<T>(s: seq<T>, k: int)
    ensures Take(s, k) + Drop(s, k) == s
  {
  }
}
