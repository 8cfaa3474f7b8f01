/** Counting the elements of a tensor with overflow checks. */
module ElementCount {
  import opened Arith
  import opened Folds
  import opened LayoutRecovery
  import opened MachineInts
  import opened TensorLayout

  /** The number of elements. */
  function Numel(sizes: seq<I32>): int {
    PrefixProduct(sizes, |sizes|)
  }

  /** No partial product of the first n sizes overflows. */
  ghost predicate PrefixesFit(sizes: seq<I32>, n: nat)
    requires n <= |sizes|
  {
    forall k :: 0 <= k <= n ==> PrefixProduct(sizes, k) < I64_LIMIT
  }

  method SafeNumel(sizes: seq<I32>) returns (r: Outcome<int>)
    ensures r.Ok? <==> NonNegative(sizes) && PrefixesFit(sizes, |sizes|)
    ensures r.Ok? ==> r.value == Numel(sizes) >= 0
  {
    var numel := 1;
    for i := 0 to |sizes|
      invariant numel == PrefixProduct(sizes, i) >= 0
      invariant forall d :: 0 <= d < i ==> sizes[d] >= 0
      invariant PrefixesFit(sizes, i)
    {
      if sizes[i] < 0 {
        return Abort;
      }
      NonNegativeProduct(numel, sizes[i]);
      numel := numel * sizes[i] as int;
      assert numel == PrefixProduct(sizes, i + 1);
      if numel >= I64_LIMIT {
        return Abort;
      }
    }
    return Ok(numel);
  }

  lemma {:induction false} NumelNonNegative(sizes: seq<I32>, k: nat)
    requires NonNegative(sizes) && k <= |sizes|
    ensures PrefixProduct(sizes, k) >= 0
  {
    if k == 0 {
    } else {
      NumelNonNegative(sizes, k - 1);
      NonNegativeProduct(PrefixProduct(sizes, k - 1), sizes[k - 1]);
    }
  }

  /** Partial products of positive sizes only grow. */
  lemma {:induction false} PrefixesGrow(sizes: seq<I32>, k: nat, n: nat)
    requires Positive(sizes) && k <= n <= |sizes|
    ensures 1 <= PrefixProduct(sizes, k) <= PrefixProduct(sizes, n)
    decreases n
  {
    if n == 0 {
    } else if k == n {
      PrefixesGrow(sizes, n - 1, n - 1);
      ScaleBoth(1, PrefixProduct(sizes, n - 1), PrefixProduct(sizes, n - 1));
      AtMostProduct(sizes[n - 1], PrefixProduct(sizes, n - 1));
    } else {
      PrefixesGrow(sizes, k, n - 1);
      AtMostProduct(sizes[n - 1], PrefixProduct(sizes, n - 1));
    }
  }

  /** A tensor with an empty dimension has no elements, however its count is computed. */
  lemma {:induction false} EmptyDimension(sizes: seq<I32>, d: nat, k: nat)
    requires d < k <= |sizes| && sizes[d] == 0
    ensures PrefixProduct(sizes, k) == 0
    ensures k == |sizes| ==> Numel(sizes) == 0 && CachedNumel(sizes) == 0
  {
    if k == d + 1 {
    } else {
      EmptyDimension(sizes, d, k - 1);
    }
  }

  /** The cached count is the number of elements exactly when that fits 63 bits. */
  lemma CachedCountIsExact(sizes: seq<I32>)
    requires NonNegative(sizes)
    ensures CachedNumel(sizes) == Numel(sizes) <==> Numel(sizes) < 0x8000_0000_0000_0000
  {
    NumelNonNegative(sizes, |sizes|);
  }
}
