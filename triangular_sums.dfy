/**
 * The accumulation pattern shared by computeDensity and computeProjectedDensity: every
 * quadrature point k of grid segment i adds a contribution c(i, k, j) to each entry j <= i,
 * so an entry collects the points of its own segment and of all segments above it.
 */
module TriangularSums {

  /** The contributions of the first K points of segment i to entry j. */
  function SegmentSum(c: (nat, nat, nat) -> real, i: nat, K: nat, j: nat): real
  {
    if K == 0 then 0.0 else SegmentSum(c, i, K - 1, j) + c(i, K - 1, j)
  }

  /** Entry j once segments 0 .. i-1 have been processed with K points each. */
  function Upto(c: (nat, nat, nat) -> real, K: nat, i: nat, j: nat): real
  {
    if i == 0 then 0.0
    else Upto(c, K, i - 1, j) + (if j <= i - 1 then SegmentSum(c, i - 1, K, j) else 0.0)
  }

  /** Segments below j never reach entry j: contributions flow only to lower indices. */
  lemma {:induction false} UptoBelowEntry(c: (nat, nat, nat) -> real, K: nat, i: nat, j: nat)
    requires i <= j
    ensures Upto(c, K, i, j) == 0.0
  {
    if i > 0 {
      UptoBelowEntry(c, K, i - 1, j);
    }
  }

  lemma {:induction false} SegmentSumNonNegative(c: (nat, nat, nat) -> real, i: nat, K: nat, j: nat)
    requires forall k: nat :: k < K ==> c(i, k, j) >= 0.0
    ensures SegmentSum(c, i, K, j) >= 0.0
  {
    if K > 0 {
      SegmentSumNonNegative(c, i, K - 1, j);
    }
  }

  /** Non-negative contributions give a non-negative entry. */
  lemma {:induction false} UptoNonNegative(c: (nat, nat, nat) -> real, K: nat, i: nat, j: nat)
    requires forall i': nat, k: nat :: j <= i' < i && k < K ==> c(i', k, j) >= 0.0
    ensures Upto(c, K, i, j) >= 0.0
  {
    if i > 0 {
      UptoNonNegative(c, K, i - 1, j);
      if j <= i - 1 {
        SegmentSumNonNegative(c, i - 1, K, j);
      }
    }
  }
}
