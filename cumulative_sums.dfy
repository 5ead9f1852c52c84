/**
 * Running sums over a grid: the in-place suffix pass that turns per-segment integrals of f
 * into integrals from h up to infinity, and the in-place prefix pass that turns them into
 * integrals from 0 up to h.
 */
module CumulativeSums {

  function Sum(a: seq<real>): real
  {
    if a == [] then 0.0 else Sum(a[..|a| - 1]) + a[|a| - 1]
  }

  /** Entry i is the sum of a[0..i]. */
  function PrefixSums(a: seq<real>): (r: seq<real>)
    ensures |r| == |a|
  {
    seq(|a|, i requires 0 <= i < |a| => Sum(a[..i + 1]))
  }

  /** Entry i is the sum of a[i..]. */
  function SuffixSums(a: seq<real>): (r: seq<real>)
    ensures |r| == |a|
  {
    seq(|a|, i requires 0 <= i < |a| => Sum(a[i..]))
  }

  lemma {:induction false} SumFront(a: seq<real>)
    requires |a| > 0
    ensures Sum(a) == a[0] + Sum(a[1..])
  {
    if |a| > 1 {
      SumFront(a[..|a| - 1]);
      assert a[..|a| - 1][1..] == a[1..][..|a[1..]| - 1];
      assert a[..|a| - 1][0] == a[0];
    } else {
      assert a[1..] == [];
      assert a[..|a| - 1] == [];
    }
  }

  /** Each prefix sum is the previous one plus the next term. */
  lemma PrefixSumsStep(a: seq<real>, i: nat)
    requires 0 < i < |a|
    ensures PrefixSums(a)[i] == PrefixSums(a)[i - 1] + a[i]
  {
    assert a[..i + 1][..i] == a[..i];
  }

  /** Each suffix sum is the next one plus the current term; the last is the last term. */
  lemma SuffixSumsStep(a: seq<real>, i: nat)
    requires i < |a|
    ensures i + 1 < |a| ==> SuffixSums(a)[i] == a[i] + SuffixSums(a)[i + 1]
    ensures i + 1 == |a| ==> SuffixSums(a)[i] == a[i]
  {
    SumFront(a[i..]);
    assert a[i..][1..] == a[i + 1..];
    if i + 1 == |a| {
      assert a[i + 1..] == [];
    }
  }

  /** Prefix sums of terms that are non-negative after the first never decrease. */
  lemma {:induction false} PrefixSumsMonotone(a: seq<real>)
    requires forall m :: 1 <= m < |a| ==> a[m] >= 0.0
    ensures forall i, j :: 0 <= i <= j < |a| ==> PrefixSums(a)[i] <= PrefixSums(a)[j]
  {
    forall i, j | 0 <= i <= j < |a|
      ensures PrefixSums(a)[i] <= PrefixSums(a)[j]
    {
      var m := i;
      while m < j
        invariant i <= m <= j
        invariant PrefixSums(a)[i] <= PrefixSums(a)[m]
      {
        PrefixSumsStep(a, m + 1);
        m := m + 1;
      }
    }
  }

  /** Suffix sums of non-negative terms are non-negative and never increase. */
  lemma {:induction false} SuffixSumsMonotone(a: seq<real>)
    requires forall m :: 0 <= m < |a| ==> a[m] >= 0.0
    ensures forall i :: 0 <= i < |a| ==> SuffixSums(a)[i] >= 0.0
    ensures forall i, j :: 0 <= i <= j < |a| ==> SuffixSums(a)[i] >= SuffixSums(a)[j]
  {
    forall i | 0 <= i < |a|
      ensures SuffixSums(a)[i] >= 0.0
    {
      var m := |a| - 1;
      SuffixSumsStep(a, m);
      while m > i
        invariant i <= m < |a|
        invariant SuffixSums(a)[m] >= 0.0
      {
        SuffixSumsStep(a, m - 1);
        m := m - 1;
      }
    }
    forall i, j | 0 <= i <= j < |a|
      ensures SuffixSums(a)[i] >= SuffixSums(a)[j]
    {
      var m := j;
      while m > i
        invariant i <= m <= j
        invariant SuffixSums(a)[m] >= SuffixSums(a)[j]
      {
        SuffixSumsStep(a, m - 1);
        m := m - 1;
      }
    }
  }

  /** The first prefix sum is the first term. */
  lemma FirstPrefixSum(a: seq<real>)
    requires |a| > 0
    ensures PrefixSums(a)[0] == a[0]
  {
    assert a[..1] == [a[0]] && [a[0]][..0] == [];
    assert Sum(a[..1]) == a[0];
  }

  /** Non-negative terms give non-negative, non-decreasing prefix sums. */
  lemma PrefixSumsNonNegative(a: seq<real>)
    requires forall m :: 0 <= m < |a| ==> a[m] >= 0.0
    ensures forall i :: 0 <= i < |a| ==> PrefixSums(a)[i] >= 0.0
    ensures forall i, j :: 0 <= i <= j < |a| ==> PrefixSums(a)[i] <= PrefixSums(a)[j]
  {
    PrefixSumsMonotone(a);
    if |a| > 0 {
      FirstPrefixSum(a);
    }
  }

  /** The last prefix sum is the sum of everything. */
  lemma LastPrefixSum(a: seq<real>)
    requires |a| > 0
    ensures PrefixSums(a)[|a| - 1] == Sum(a)
  {
    assert a[..|a|] == a;
  }

  /** for(i=1; i<n; i++) a[i] += a[i-1]; */
  method PrefixSumInPlace(a: array<real>)
    modifies a
    ensures a[..] == PrefixSums(old(a[..]))
  {
    ghost var orig := a[..];
    if a.Length == 0 {
      return;
    }
    FirstPrefixSum(orig);
    var i := 1;
    while i < a.Length
      invariant 1 <= i <= a.Length
      invariant forall m :: 0 <= m < i ==> a[m] == PrefixSums(orig)[m]
      invariant forall m :: i <= m < a.Length ==> a[m] == orig[m]
    {
      PrefixSumsStep(orig, i);
      a[i] := a[i] + a[i - 1];
      i := i + 1;
    }
  }

  /** for(i=n-1; i>=1; i--) a[i-1] += a[i]; */
  method SuffixSumInPlace(a: array<real>)
    modifies a
    ensures a[..] == SuffixSums(old(a[..]))
  {
    ghost var orig := a[..];
    if a.Length == 0 {
      return;
    }
    SuffixSumsStep(orig, a.Length - 1);
    var i := a.Length - 1;
    while i >= 1
      invariant 0 <= i < a.Length
      invariant forall m :: i <= m < a.Length ==> a[m] == SuffixSums(orig)[m]
      invariant forall m :: 0 <= m < i ==> a[m] == orig[m]
    {
      SuffixSumsStep(orig, i - 1);
      a[i - 1] := a[i - 1] + a[i];
      i := i - 1;
    }
  }
}
