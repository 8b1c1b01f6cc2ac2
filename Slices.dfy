/**
 * The two forms of Python string slicing that the graph builders use, with
 * Python's clamping made explicit: out-of-range bounds are cut back to the
 * string's length instead of failing.
 */
module Slices {

  function Min(a: int, b: int): int
  {
    if a <= b then a else b
  }

  /**
   * `s[lo:hi]` for non-negative bounds: both bounds are clamped to `|s|`, and
   * the slice is empty when `lo >= hi` or `lo >= |s|`.
   */
  function Slice(s: string, lo: nat, hi: nat): (r: string)
    ensures |r| == if hi <= lo || |s| <= lo then 0 else Min(hi, |s|) - lo
  {
    if hi <= lo || |s| <= lo then [] else s[lo..Min(hi, |s|)]
  }

  /**
   * `s[-n:]` for `n >= 1`: the last `n` characters, or the whole string when
   * it is shorter than `n`.
   */
  function Last(s: string, n: nat): (r: string)
    ensures |r| == Min(n, |s|)
  {
    s[|s| - Min(n, |s|)..]
  }

  /** A slice that fits inside the string is the ordinary subsequence. */
  lemma SliceInside(s: string, lo: nat, hi: nat)
    requires lo <= hi <= |s|
    ensures Slice(s, lo, hi) == s[lo..hi]
  {
  }

  /** Last(s, n) for n no longer than s is the plain suffix of length n. */
  lemma LastInside(s: string, n: nat)
    requires n <= |s|
    ensures Last(s, n) == s[|s| - n..]
  {
  }
}
