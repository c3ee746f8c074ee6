module Seqs {

  predicate Distinct<T(==)>(xs: seq<T>) {
    forall i, j | 0 <= i < j < |xs| :: xs[i] != xs[j]
  }

  function Repeat<T>(x: T, n: nat): (s: seq<T>)
    ensures |s| == n && forall i | 0 <= i < n :: s[i] == x
  {
    seq(n, _ => x)
  }

  /** A buffer of `n` elements with `s` at its front and `x` behind it. */
  function Pad<T>(s: seq<T>, x: T, n: nat): (t: seq<T>)
    requires |s| <= n
    ensures |t| == n && t[..|s|] == s && forall i | |s| <= i < n :: t[i] == x
  {
    s + Repeat(x, n - |s|)
  }
}
