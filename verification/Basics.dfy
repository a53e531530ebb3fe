/** Notions that several components share. */
module Basics {
  datatype Option<+T> = None | Some(value: T)

  /** The senone sequences of a phone for all contexts on one side, listed once each, and where each context's
      is in the list. */
  datatype Xwd = Xwd(ssid: seq<int>, cimap: seq<nat>)

  predicate IsXwd(nCi: nat, w: Xwd) {
    |w.cimap| == nCi && |w.ssid| <= nCi && forall r :: 0 <= r < nCi ==> w.cimap[r] < |w.ssid|
  }

  lemma MulBound(m: nat, d: int)
    ensures d >= 1 ==> m * d >= m
    ensures d <= -1 ==> m * d + m <= 0
  {
  }

  /** The numbers below n. */
  function Below(n: nat): (r: set<nat>)
    ensures |r| == n && forall v: nat :: v in r <==> v < n
  {
    if n == 0 then {} else Below(n - 1) + {n - 1}
  }
}
