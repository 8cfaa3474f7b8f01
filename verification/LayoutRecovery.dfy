/**
 Guessing the dim order from strides.

 Sorting the dimensions by descending stride recovers every dense layout, whatever the sort
 does with ties and whatever strides are given for dimensions of size 1. The one exception,
 a tie between an empty dimension and a larger one, is stated exactly.
 */
module LayoutRecovery {
  import opened Folds
  import opened MachineInts
  import opened TensorLayout
  import opened Wrappers

  ghost predicate NonNegative(sizes: seq<I32>) {
    forall d :: 0 <= d < |sizes| ==> sizes[d] >= 0
  }

  ghost predicate Positive(sizes: seq<I32>) {
    forall d :: 0 <= d < |sizes| ==> sizes[d] >= 1
  }

  /** The strides are those of the order p, on every dimension where a stride matters. */
  ghost predicate Describes(sizes: seq<I32>, p: seq<nat>, strides: seq<I32>) {
    && |strides| == |sizes|
    && IsPermutation(p, |sizes|)
    && forall k :: 0 <= k < |p| && sizes[p[k]] != 1 ==> strides[p[k]] == Suffix(sizes, p, k + 1)
  }

  ghost predicate Descending(strides: seq<I32>, q: seq<nat>)
    requires Indices(q, |strides|)
  {
    forall i, j :: 0 <= i < j < |q| ==> strides[q[i]] >= strides[q[j]]
  }

  /** No empty dimension is listed before a larger one of the same stride. */
  ghost predicate NoEmptyTie(sizes: seq<I32>, strides: seq<I32>, q: seq<nat>)
    requires |strides| == |sizes| && Indices(q, |sizes|)
  {
    forall i, j :: 0 <= i < j < |q| && sizes[q[i]] == 0 && sizes[q[j]] >= 2 ==> strides[q[i]] != strides[q[j]]
  }

  // ---- Dimensions of size 1 do not contribute ----

  /** The dimensions of a list that contribute a factor. */
  ghost function Keep(sizes: seq<I32>, s: seq<nat>): (r: seq<nat>)
    requires Indices(s, |sizes|)
    ensures Indices(r, |sizes|)
  {
    if s == [] then []
    else if sizes[s[0]] !in {0, 1} then [s[0]] + Keep(sizes, s[1..])
    else Keep(sizes, s[1..])
  }

  lemma {:induction false} KeepMembers(sizes: seq<I32>, s: seq<nat>)
    requires Indices(s, |sizes|)
    ensures forall d: nat :: d in Keep(sizes, s) <==> d in s && sizes[d] !in {0, 1}
    ensures Distinct(s) ==> Distinct(Keep(sizes, s))
  {
    if s == [] {
    } else {
      KeepMembers(sizes, s[1..]);
      assert s == [s[0]] + s[1..];
    }
  }

  lemma {:induction false} KeepProduct(sizes: seq<I32>, s: seq<nat>)
    requires Indices(s, |sizes|)
    ensures Fold(Product, Factors(sizes), s) == Fold(Product, Factors(sizes), Keep(sizes, s))
  {
    if s == [] {
    } else {
      KeepProduct(sizes, s[1..]);
      if sizes[s[0]] !in {0, 1} {
        assert Keep(sizes, s)[1..] == Keep(sizes, s[1..]);
      }
    }
  }

  // ---- Exact strides decrease along the order ----

  lemma SuffixPositive(sizes: seq<I32>, p: seq<nat>, k: nat)
    requires NonNegative(sizes) && Indices(p, |sizes|) && k <= |p|
    ensures Suffix(sizes, p, k) >= 1
  {
    ProductPositive(Factors(sizes), p[k..]);
  }

  lemma SuffixDescends(sizes: seq<I32>, p: seq<nat>, j: nat, k: nat)
    requires NonNegative(sizes) && Indices(p, |sizes|) && j < k < |p|
    ensures Suffix(sizes, p, j + 1) >= Suffix(sizes, p, k + 1)
    ensures sizes[p[k]] >= 2 ==> Suffix(sizes, p, j + 1) > Suffix(sizes, p, k + 1)
  {
    var f := Factors(sizes);
    assert p[j + 1..] == p[j + 1..k] + p[k..];
    FoldConcat(Product, f, p[j + 1..k], p[k..]);
    ProductPositive(f, p[j + 1..k]);
    SuffixStep(sizes, p, k);
    SuffixPositive(sizes, p, k + 1);
    Dominates(Fold(Product, f, p[j + 1..k]), f[p[k]], Suffix(sizes, p, k + 1));
  }

  lemma Dominates(x: int, y: int, z: int)
    requires x >= 1 && y >= 1 && z >= 1
    ensures x * (y * z) >= z
    ensures y >= 2 ==> x * (y * z) > z
  {
    assert y * z >= z;
    assert y >= 2 ==> y * z >= 2 * z;
    assert x * (y * z) >= 1 * (y * z);
  }

  /** Inside d in the order p come exactly the larger dimensions with a smaller stride. */
  lemma InsideIsSmaller(sizes: seq<I32>, p: seq<nat>, strides: seq<I32>, j: nat, e: nat)
    requires NonNegative(sizes) && Describes(sizes, p, strides)
    requires j < |p| && e < |sizes| && sizes[p[j]] != 1 && sizes[e] >= 2
    ensures e in p[j + 1..] <==> strides[e] < strides[p[j]]
  {
    var k := Position(p, |sizes|, e);
    if k > j {
      SuffixDescends(sizes, p, j, k);
      assert p[j + 1..][k - j - 1] == e;
    } else if k < j {
      SuffixDescends(sizes, p, k, j);
    }
  }

  /** The same holds of any descending order of those strides without a bad tie. */
  lemma SortedInsideIsSmaller(sizes: seq<I32>, p: seq<nat>, strides: seq<I32>, q: seq<nat>, k: nat, e: nat)
    requires NonNegative(sizes) && Describes(sizes, p, strides) && IsPermutation(q, |sizes|)
    requires Descending(strides, q) && NoEmptyTie(sizes, strides, q)
    requires k < |q| && e < |sizes| && sizes[q[k]] != 1 && sizes[e] >= 2
    ensures e in q[k + 1..] <==> strides[e] < strides[q[k]]
  {
    var i := Position(q, |sizes|, e);
    if i > k {
      assert q[k + 1..][i - k - 1] == e;
      if sizes[q[k]] != 0 {
        DistinctStrides(sizes, p, strides, e, q[k]);
      }
    }
  }

  lemma DistinctStrides(sizes: seq<I32>, p: seq<nat>, strides: seq<I32>, d: nat, e: nat)
    requires NonNegative(sizes) && Describes(sizes, p, strides)
    requires d < |sizes| && e < |sizes| && d != e && sizes[d] >= 2 && sizes[e] >= 2
    ensures strides[d] != strides[e]
  {
    var j, k := Position(p, |sizes|, d), Position(p, |sizes|, e);
    if j < k {
      SuffixDescends(sizes, p, j, k);
    } else {
      SuffixDescends(sizes, p, k, j);
    }
  }

  // ---- Main results ----

  lemma SortIsPermutation(strides: seq<I32>, sorted: seq<nat>)
    requires SortResult(strides, sorted) && |strides| <= DIM_LIMIT
    ensures IsPermutation(sorted, |strides|)
  {
    var n := |strides|;
    SortedLength(strides, sorted);
    var initial := InitialOrder(n);
    forall i, j | 0 <= i < j < n ensures sorted[i] != sorted[j] {
      if sorted[i] == sorted[j] {
        DistinctMultiplicity(initial, sorted[i]);
        TwiceInMultiset(sorted, i, j);
      }
    }
  }

  lemma TwiceInMultiset(s: seq<nat>, i: nat, j: nat)
    requires i < j < |s| && s[i] == s[j]
    ensures multiset(s)[s[i]] >= 2
  {
    ExtractMultiset(s, i);
    var rest := s[..i] + s[i + 1..];
    assert rest[j - 1] == s[j];
    assert s[j] in multiset(rest);
  }

  /** In a sorted order, each dimension that matters has its exact stride from the order p. */
  lemma RecoveredSuffix(sizes: seq<I32>, p: seq<nat>, strides: seq<I32>, q: seq<nat>, k: nat)
    requires NonNegative(sizes) && Describes(sizes, p, strides) && IsPermutation(q, |sizes|)
    requires Descending(strides, q) && NoEmptyTie(sizes, strides, q)
    requires k < |q| && sizes[q[k]] != 1
    ensures Suffix(sizes, q, k + 1) == strides[q[k]]
  {
    var f := Factors(sizes);
    var j := Position(p, |sizes|, q[k]);
    var inP, inQ := p[j + 1..], q[k + 1..];
    KeepMembers(sizes, inP);
    KeepMembers(sizes, inQ);
    forall e: nat ensures e in Keep(sizes, inQ) <==> e in Keep(sizes, inP) {
      if e < |sizes| && sizes[e] >= 2 {
        InsideIsSmaller(sizes, p, strides, j, e);
        SortedInsideIsSmaller(sizes, p, strides, q, k, e);
      }
    }
    SameElements(Keep(sizes, inQ), Keep(sizes, inP));
    FoldPermutation(Product, f, Keep(sizes, inQ), Keep(sizes, inP));
    KeepProduct(sizes, inP);
    KeepProduct(sizes, inQ);
  }

  lemma RecoveredStride(sizes: seq<I32>, p: seq<nat>, strides: seq<I32>, q: seq<nat>, d: nat)
    requires NonNegative(sizes) && Describes(sizes, p, strides) && IsPermutation(q, |sizes|)
    requires Descending(strides, q) && NoEmptyTie(sizes, strides, q)
    requires d < |sizes| && sizes[d] != 1
    ensures Strides(sizes, q)[d] == strides[d]
  {
    var k := Position(q, |sizes|, d);
    RecoveredSuffix(sizes, p, strides, q, k);
    StrideAt(sizes, q, k);
    SmallDoesNotWrap(strides[d]);
  }

  /**
   Layout recovery. Strides that describe some order p are accepted under every result the
   unstable sort may return (without a bad tie, so always when no dimension is empty), and the
   strides stored for the guessed order are the given ones on every dimension of size other
   than 1. No bound on the number of elements is needed: only dimensions of size 1 can have a
   stride that wraps around.
   */
  lemma LayoutRecovery(sizes: seq<I32>, p: seq<nat>, strides: seq<I32>, sorted: seq<nat>)
    requires NonNegative(sizes) && 1 <= |sizes| <= DIM_LIMIT
    requires Describes(sizes, p, strides) && SortResult(strides, sorted)
    requires Positive(sizes) || NoEmptyTie(sizes, strides, sorted)
    ensures Accepts(sizes, sorted, strides)
    ensures forall d :: 0 <= d < |sizes| && sizes[d] != 1 ==> Strides(sizes, sorted)[d] == strides[d]
  {
    SortIsPermutation(strides, sorted);
    forall d: nat | d < |sizes| && sizes[d] != 1 ensures Strides(sizes, sorted)[d] == strides[d] {
      RecoveredStride(sizes, p, strides, sorted, d);
    }
  }

  /** The number of elements, an empty dimension counting once. */
  ghost function Extent(sizes: seq<I32>): int {
    Fold(Product, Factors(sizes), Range(0, |sizes|))
  }

  lemma ExtentAlongOrder(sizes: seq<I32>, order: seq<nat>)
    requires IsPermutation(order, |sizes|)
    ensures Suffix(sizes, order, 0) == Extent(sizes)
  {
    var n := |sizes|;
    assert order[0..] == order;
    PermutationMultiset(order, Range(0, n), n);
    FoldPermutation(Product, Factors(sizes), order, Range(0, n));
  }

  // ---- Strides that wrap around ----

  /** A stored stride is exact if and only if the exact one fits 32 bits. */
  lemma StrideIsExact(sizes: seq<I32>, order: seq<nat>, k: nat)
    requires NonNegative(sizes) && IsPermutation(order, |sizes|) && k < |order|
    ensures Strides(sizes, order)[order[k]] == Suffix(sizes, order, k + 1) <==> Suffix(sizes, order, k + 1) < I32_LIMIT
  {
    StrideAt(sizes, order, k);
    SuffixPositive(sizes, order, k + 1);
    if Suffix(sizes, order, k + 1) < I32_LIMIT {
      SmallDoesNotWrap(Suffix(sizes, order, k + 1));
    }
  }

  /** All stored strides are exact if and only if the outermost one fits 32 bits. */
  lemma StoredStridesAreExact(sizes: seq<I32>, order: seq<nat>)
    requires NonNegative(sizes) && IsPermutation(order, |sizes|) && |sizes| >= 1
    ensures (forall k :: 0 <= k < |order| ==> Strides(sizes, order)[order[k]] == Suffix(sizes, order, k + 1))
       <==> Suffix(sizes, order, 1) < I32_LIMIT
  {
    StrideIsExact(sizes, order, 0);
    if Suffix(sizes, order, 1) < I32_LIMIT {
      forall k | 0 <= k < |order| ensures Strides(sizes, order)[order[k]] == Suffix(sizes, order, k + 1) {
        if k > 0 {
          SuffixDescends(sizes, order, 0, k);
        }
        StrideIsExact(sizes, order, k);
      }
    }
  }

  /** The strides fit 32 bits wherever they matter. */
  ghost predicate StridesFit(sizes: seq<I32>, order: seq<nat>) {
    && IsPermutation(order, |sizes|)
    && forall k :: 0 <= k < |order| && sizes[order[k]] != 1 ==> Suffix(sizes, order, k + 1) < I32_LIMIT
  }

  /** Stored strides describe the stored order if and only if they fit. */
  lemma StoredDescribes(sizes: seq<I32>, order: seq<nat>)
    requires NonNegative(sizes) && IsPermutation(order, |sizes|)
    ensures Describes(sizes, order, Strides(sizes, order)) <==> StridesFit(sizes, order)
  {
    forall k | 0 <= k < |order|
      ensures Strides(sizes, order)[order[k]] == Suffix(sizes, order, k + 1)
         <==> Suffix(sizes, order, k + 1) < I32_LIMIT
    {
      StrideIsExact(sizes, order, k);
    }
  }

  // ---- Which strides are accepted ----

  /**
   Which strides a given sort result recovers: those that describe some order, provided the sort
   did not put an empty dimension before a larger one of the same stride. Acceptance alone says
   less, because strides that wrapped around are compared as well.
   */
  lemma AcceptedExactlyDense(sizes: seq<I32>, strides: seq<I32>, sorted: seq<nat>)
    requires NonNegative(sizes) && 1 <= |sizes| <= DIM_LIMIT && |strides| == |sizes|
    requires SortResult(strides, sorted)
    ensures Accepts(sizes, sorted, strides) && StridesFit(sizes, sorted)
       <==> (exists p :: Describes(sizes, p, strides)) && NoEmptyTie(sizes, strides, sorted)
  {
    SortIsPermutation(strides, sorted);
    if Accepts(sizes, sorted, strides) && StridesFit(sizes, sorted) {
      StoredDescribes(sizes, sorted);
      assert Describes(sizes, sorted, strides);
      forall i, j | 0 <= i < j < |sorted| && sizes[sorted[i]] == 0 && sizes[sorted[j]] >= 2
        ensures strides[sorted[i]] != strides[sorted[j]]
      {
        SuffixDescends(sizes, sorted, i, j);
      }
    }
    if p :| Describes(sizes, p, strides) && NoEmptyTie(sizes, strides, sorted) {
      LayoutRecovery(sizes, p, strides, sorted);
      forall k | 0 <= k < |sorted| && sizes[sorted[k]] != 1 ensures Suffix(sizes, sorted, k + 1) < I32_LIMIT {
        RecoveredSuffix(sizes, p, strides, sorted, k);
      }
    }
  }

  // ---- Whatever the sort does ----

  /** No empty dimension has the stride of a larger one. */
  ghost predicate NoTie(sizes: seq<I32>, strides: seq<I32>)
    requires |strides| == |sizes|
  {
    forall d, e :: 0 <= d < |sizes| && 0 <= e < |sizes| && sizes[d] == 0 && sizes[e] >= 2 ==> strides[d] != strides[e]
  }

  /** x, inserted into a descending list at its place. */
  lemma {:induction false} Insert(strides: seq<I32>, x: nat, s: seq<nat>) returns (r: seq<nat>)
    requires x < |strides| && Indices(s, |strides|) && Descending(strides, s)
    ensures multiset(r) == multiset([x] + s) && Indices(r, |strides|) && Descending(strides, r)
    ensures r[0] == x || (s != [] && r[0] == s[0])
  {
    if s == [] || strides[x] >= strides[s[0]] {
      r := [x] + s;
    } else {
      var rest := Insert(strides, x, s[1..]);
      r := [s[0]] + rest;
      assert s == [s[0]] + s[1..];
      LargestInFront(strides, s[0], rest);
    }
  }

  /** A descending list stays so with an index in front whose stride is no less than its first. */
  lemma LargestInFront(strides: seq<I32>, y: nat, s: seq<nat>)
    requires y < |strides| && Indices(s, |strides|) && Descending(strides, s)
    requires s != [] ==> strides[y] >= strides[s[0]]
    ensures Indices([y] + s, |strides|) && Descending(strides, [y] + s)
  {
  }

  lemma {:induction false} Sort(strides: seq<I32>, s: seq<nat>) returns (r: seq<nat>)
    requires Indices(s, |strides|)
    ensures multiset(r) == multiset(s) && Indices(r, |strides|) && Descending(strides, r)
  {
    if s == [] {
      r := [];
    } else {
      var rest := Sort(strides, s[1..]);
      r := Insert(strides, s[0], rest);
      assert s == [s[0]] + s[1..];
    }
  }

  /** Exchanging two tied dimensions gives another sort result. */
  lemma SwapTied(strides: seq<I32>, sorted: seq<nat>, i: nat, j: nat)
    requires SortResult(strides, sorted) && i < j < |sorted| && strides[sorted[i]] == strides[sorted[j]]
    ensures SortResult(strides, sorted[i := sorted[j]][j := sorted[i]])
  {
    var swapped := sorted[i := sorted[j]][j := sorted[i]];
    assert multiset(swapped) == multiset(sorted);
    assert forall k :: 0 <= k < |sorted| ==> strides[swapped[k]] == strides[sorted[k]];
  }

  lemma SomeSort(strides: seq<I32>) returns (sorted: seq<nat>)
    ensures SortResult(strides, sorted)
  {
    sorted := Sort(strides, InitialOrder(|strides|));
  }

  /** The sort may return two tied dimensions in either order. */
  lemma SortWith(strides: seq<I32>, d: nat, e: nat) returns (sorted: seq<nat>, i: nat, j: nat)
    requires d < |strides| <= DIM_LIMIT && e < |strides| && d != e && strides[d] == strides[e]
    ensures SortResult(strides, sorted)
    ensures i < j < |sorted| && sorted[i] == d && sorted[j] == e
  {
    sorted := SomeSort(strides);
    SortIsPermutation(strides, sorted);
    i, j := Position(sorted, |strides|, d), Position(sorted, |strides|, e);
    if j < i {
      SwapTied(strides, sorted, j, i);
      sorted, i, j := sorted[j := sorted[i]][i := sorted[j]], j, i;
    }
  }

  /** The strides are accepted and the stored ones describe the guessed order, whatever the sort does. */
  ghost predicate AlwaysRecovered(sizes: seq<I32>, strides: seq<I32>) {
    forall sorted :: SortResult(strides, sorted) ==> Accepts(sizes, sorted, strides) && StridesFit(sizes, sorted)
  }

  lemma RecoveredHasNoTie(sizes: seq<I32>, strides: seq<I32>, d: nat, e: nat)
    requires NonNegative(sizes) && 1 <= |sizes| <= DIM_LIMIT && |strides| == |sizes|
    requires AlwaysRecovered(sizes, strides)
    requires d < |sizes| && e < |sizes| && sizes[d] == 0 && sizes[e] >= 2
    ensures strides[d] != strides[e]
  {
    if strides[d] == strides[e] {
      var sorted, i, j := SortWith(strides, d, e);
      AcceptedExactlyDense(sizes, strides, sorted);
    }
  }

  /**
   The condition a caller can check. Every sort result recovers the strides if and only if they
   describe some order and no empty dimension has the stride of a larger one.
   */
  lemma RecoveredWhateverTheSort(sizes: seq<I32>, strides: seq<I32>)
    requires NonNegative(sizes) && 1 <= |sizes| <= DIM_LIMIT && |strides| == |sizes|
    ensures AlwaysRecovered(sizes, strides)
       <==> (exists p :: Describes(sizes, p, strides)) && NoTie(sizes, strides)
  {
    if AlwaysRecovered(sizes, strides) {
      var any := SomeSort(strides);
      AcceptedExactlyDense(sizes, strides, any);
      forall d: nat, e: nat | d < |sizes| && e < |sizes| && sizes[d] == 0 && sizes[e] >= 2
        ensures strides[d] != strides[e]
      {
        RecoveredHasNoTie(sizes, strides, d, e);
      }
    }
    if (exists p :: Describes(sizes, p, strides)) && NoTie(sizes, strides) {
      forall sorted | SortResult(strides, sorted)
        ensures Accepts(sizes, sorted, strides) && StridesFit(sizes, sorted)
      {
        SortIsPermutation(strides, sorted);
        AcceptedExactlyDense(sizes, strides, sorted);
      }
    }
  }

  /** The other dimensions below n whose stride is no larger than that of d. */
  ghost function NoLarger(strides: seq<I32>, d: nat, n: nat): (s: seq<nat>)
    requires d < |strides| && n <= |strides|
    ensures Distinct(s) && Indices(s, n)
    ensures forall e :: e in s <==> 0 <= e < n && e != d && strides[e] <= strides[d]
  {
    if n == 0 then []
    else
      var rest := NoLarger(strides, d, n - 1);
      if n - 1 != d && strides[n - 1] <= strides[d] then rest + [n - 1] else rest
  }

  /** No stride that a sort could lead to, on a dimension where it matters, leaves 32 bits. */
  ghost predicate AlwaysFits(sizes: seq<I32>, strides: seq<I32>)
    requires |strides| == |sizes|
  {
    forall d :: 0 <= d < |sizes| && sizes[d] != 1 ==>
      Fold(Product, Factors(sizes), NoLarger(strides, d, |sizes|)) < I32_LIMIT
  }

  /** What a sort puts inside a dimension has no larger stride. */
  lemma InsideIsNoLarger(sizes: seq<I32>, strides: seq<I32>, q: seq<nat>, k: nat)
    requires NonNegative(sizes) && |strides| == |sizes| && IsPermutation(q, |sizes|) && Descending(strides, q)
    requires k < |q|
    ensures Suffix(sizes, q, k + 1) <= Fold(Product, Factors(sizes), NoLarger(strides, q[k], |sizes|))
  {
    ProductOfSome(Factors(sizes), q[k + 1..], NoLarger(strides, q[k], |sizes|));
  }

  /** In a described layout without ties, the product of all dimensions of no larger stride is the stride. */
  lemma NoLargerIsInside(sizes: seq<I32>, p: seq<nat>, strides: seq<I32>, d: nat)
    requires NonNegative(sizes) && Describes(sizes, p, strides) && NoTie(sizes, strides)
    requires d < |sizes| && sizes[d] != 1
    ensures Fold(Product, Factors(sizes), NoLarger(strides, d, |sizes|)) == strides[d]
  {
    var f, j := Factors(sizes), Position(p, |sizes|, d);
    var inP, others := p[j + 1..], NoLarger(strides, d, |sizes|);
    KeepMembers(sizes, inP);
    KeepMembers(sizes, others);
    forall e: nat ensures e in Keep(sizes, others) <==> e in Keep(sizes, inP) {
      if e < |sizes| && sizes[e] >= 2 {
        InsideIsSmaller(sizes, p, strides, j, e);
        if e != d && sizes[d] >= 2 {
          DistinctStrides(sizes, p, strides, d, e);
        }
      }
    }
    SameElements(Keep(sizes, others), Keep(sizes, inP));
    FoldPermutation(Product, f, Keep(sizes, others), Keep(sizes, inP));
    KeepProduct(sizes, inP);
    KeepProduct(sizes, others);
  }

  /**
   Which strides are accepted whatever the sort does, when none of them can wrap around: those
   that describe some order, with no empty dimension of the stride of a larger one.
   */
  lemma AcceptedWhateverTheSort(sizes: seq<I32>, strides: seq<I32>)
    requires NonNegative(sizes) && 1 <= |sizes| <= DIM_LIMIT && |strides| == |sizes|
    ensures && AlwaysFits(sizes, strides)
            && (forall sorted :: SortResult(strides, sorted) ==> Accepts(sizes, sorted, strides))
       <==> (exists p :: Describes(sizes, p, strides)) && NoTie(sizes, strides)
  {
    RecoveredWhateverTheSort(sizes, strides);
    if AlwaysFits(sizes, strides) && forall sorted :: SortResult(strides, sorted) ==> Accepts(sizes, sorted, strides) {
      forall sorted | SortResult(strides, sorted) ensures StridesFit(sizes, sorted) {
        SortIsPermutation(strides, sorted);
        forall k | 0 <= k < |sorted| && sizes[sorted[k]] != 1 ensures Suffix(sizes, sorted, k + 1) < I32_LIMIT {
          InsideIsNoLarger(sizes, strides, sorted, k);
        }
      }
    }
    if p :| Describes(sizes, p, strides) && NoTie(sizes, strides) {
      forall d: nat | d < |sizes| && sizes[d] != 1
        ensures Fold(Product, Factors(sizes), NoLarger(strides, d, |sizes|)) < I32_LIMIT
      {
        NoLargerIsInside(sizes, p, strides, d);
      }
    }
  }

  /** Two tied dimensions may come out exchanged. */
  lemma ExchangedSort(strides: seq<I32>)
    requires |strides| == 2 && strides[0] == strides[1]
    ensures SortResult(strides, [1, 0])
  {
    assert InitialOrder(2) == [0, 1];
    assert multiset(InitialOrder(2)) == multiset([0, 1]);
    var sorted: seq<nat> := [1, 0];
    assert multiset(sorted) == multiset([0, 1]);
  }

  /** The innermost of two strides is 1 and the other is the size of the innermost dimension. */
  lemma TwoStrides(sizes: seq<I32>, order: seq<nat>)
    requires |sizes| == 2 && IsPermutation(order, 2)
    ensures Suffix(sizes, order, 2) == 1 && Suffix(sizes, order, 1) == Factors(sizes)[order[1]]
  {
    SuffixStep(sizes, order, 1);
  }

  /**
   The exception is real: for sizes [5, 0] the strides [1, 1] describe the order [0, 1] but
   are rejected when the sort returns the tied dimensions as [1, 0].
   */
  lemma EmptyDimensionMayBeRejected()
    ensures var sizes: seq<I32>, strides: seq<I32>, sorted := [5, 0], [1, 1], [1, 0];
      && SortResult(strides, sorted)
      && Describes(sizes, [0, 1], strides)
      && !Accepts(sizes, sorted, strides)
  {
    var sizes: seq<I32>, sorted: seq<nat> := [5, 0], [1, 0];
    ExchangedSort([1, 1]);
    EmptyInside(sizes);
    OuterFive(sizes, sorted);
  }

  lemma EmptyInside(sizes: seq<I32>)
    requires sizes == [5, 0]
    ensures Describes(sizes, [0, 1], [1, 1])
  {
    TwoStrides(sizes, [0, 1]);
  }

  lemma OuterFive(sizes: seq<I32>, sorted: seq<nat>)
    requires sizes == [5, 0] && sorted == [1, 0]
    ensures !Accepts(sizes, sorted, [1, 1])
  {
    TwoStrides(sizes, sorted);
    StrideAt(sizes, sorted, 0);
    SmallDoesNotWrap(5);
  }

  // ---- What construction yields ----

  /**
   Construction from strides alone. Strides that describe an order never abort, whatever the sort
   does, and the tensor keeps them on every dimension of size other than 1.
   */
  method MakeFromStrides<D>(sizes: seq<I32>, data: D, ghost p: seq<nat>, strides: seq<I32>, scalarType: ScalarType,
                            dynamism: Dynamism, deleter: Option<Deleter>, device: Device, sorted: seq<nat>)
    returns (t: Tensor<D>)
    requires NonNegative(sizes) && 1 <= |sizes| <= DIM_LIMIT
    requires Describes(sizes, p, strides) && SortResult(strides, sorted)
    requires Positive(sizes) || NoEmptyTie(sizes, strides, sorted)
    ensures t.meta.sizes == sizes && t.data == data && t.scalarType == scalarType
    ensures |t.meta.strides| == |sizes|
    ensures forall d :: 0 <= d < |sizes| && sizes[d] != 1 ==> t.meta.strides[d] == strides[d]
    ensures IsPermutation(t.meta.dimOrder, |sizes|)
    ensures forall i, j :: 0 <= i < j < |sizes| ==> strides[t.meta.dimOrder[i]] >= strides[t.meta.dimOrder[j]]
  {
    LayoutRecovery(sizes, p, strides, sorted);
    var r := MakeTensorPtr(sizes, data, [], strides, scalarType, dynamism, deleter, device, sorted);
    t := r.value;
  }

  /** Construction from a dim order, with strides or without: the order is kept as given. */
  method MakeFromOrder<D>(sizes: seq<I32>, data: D, dimOrder: seq<nat>, strides: seq<I32>, scalarType: ScalarType,
                          dynamism: Dynamism, deleter: Option<Deleter>, device: Device)
    returns (r: Outcome<Tensor<D>>)
    requires dimOrder != []
    ensures strides == [] ==>
      (r.Ok? <==> NonNegative(sizes) && |sizes| <= 16 && IsPermutation(dimOrder, |sizes|))
    ensures r.Ok? ==> r.value.meta.dimOrder == dimOrder && r.value.meta.sizes == sizes && r.value.data == data
    ensures r.Ok? ==> IsPermutation(dimOrder, |sizes|) && r.value.meta.strides == Strides(sizes, dimOrder)
  {
    r := MakeTensorPtr(sizes, data, dimOrder, strides, scalarType, dynamism, deleter, device, []);
  }

  /** Construction from sizes alone: the dimensions in their natural order. */
  method MakeFromSizes<D>(sizes: seq<I32>, data: D, scalarType: ScalarType, dynamism: Dynamism,
                          deleter: Option<Deleter>, device: Device)
    returns (r: Outcome<Tensor<D>>)
    ensures r.Ok? <==> NonNegative(sizes) && |sizes| <= 16
    ensures r.Ok? ==> r.value.meta.dimOrder == Range(0, |sizes|) && r.value.meta.sizes == sizes && r.value.data == data
    ensures r.Ok? ==> r.value.dynamism == if sizes == [] then Static else dynamism
    ensures r.Ok? ==>
      IsPermutation(Range(0, |sizes|), |sizes|) && r.value.meta.strides == Strides(sizes, Range(0, |sizes|))
  {
    SizesAloneAreAccepted(sizes);
    r := MakeTensorPtr(sizes, data, [], [], scalarType, dynamism, deleter, device, []);
  }

  lemma SizesAloneAreAccepted(sizes: seq<I32>)
    ensures Accepts(sizes, InitialOrder(|sizes|), []) <==> NonNegative(sizes) && |sizes| <= 16
    ensures |sizes| <= 16 ==> InitialOrder(|sizes|) == Range(0, |sizes|) && IsPermutation(Range(0, |sizes|), |sizes|)
  {
    if |sizes| <= 16 {
      var order := InitialOrder(|sizes|);
      assert forall k :: 0 <= k < |sizes| ==> order[k] == k;
      assert order == Range(0, |sizes|);
    }
  }
}
