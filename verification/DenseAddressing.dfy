/**
 Addressing elements through strides.

 The offset of an index tuple is the sum of index * stride. Over dense strides it numbers the
 tuples of the index box by 0 .. numel - 1, each number once, whatever the dim order.
 */
module DenseAddressing {
  import opened Arith
  import opened Folds
  import opened MachineInts
  import opened TensorLayout
  import opened LayoutRecovery

  function Offset(strides: seq<int>, index: seq<int>): int
    requires |strides| == |index|
  {
    if strides == [] then 0 else strides[0] * index[0] + Offset(strides[1..], index[1..])
  }

  ghost predicate ValidIndex(sizes: seq<I32>, index: seq<int>) {
    |index| == |sizes| && forall d :: 0 <= d < |sizes| ==> 0 <= index[d] < sizes[d]
  }

  // ---- Offsets summed along the dim order ----

  /** Mixed-radix value of the indices of the dimensions s, the first being the most significant. */
  ghost function Digits(sizes: seq<I32>, s: seq<nat>, index: seq<int>): int
    requires Indices(s, |sizes|) && |index| == |sizes|
  {
    if s == [] then 0
    else Fold(Product, Factors(sizes), s[1..]) * index[s[0]] + Digits(sizes, s[1..], index)
  }

  function Products(strides: seq<int>, index: seq<int>): (r: seq<int>)
    requires |strides| == |index|
    ensures |r| == |index| && forall d :: 0 <= d < |r| ==> r[d] == strides[d] * index[d]
  {
    seq(|index|, d requires 0 <= d < |index| => strides[d] * index[d])
  }

  lemma {:induction false} OffsetIsFold(strides: seq<int>, index: seq<int>, k: nat)
    requires |strides| == |index| && k <= |index|
    ensures Offset(strides[k..], index[k..]) == Fold(Sum, Products(strides, index), Range(k, |index|))
    decreases |index| - k
  {
    if k == |index| {
    } else {
      OffsetIsFold(strides, index, k + 1);
      assert strides[k..][1..] == strides[k + 1..] && index[k..][1..] == index[k + 1..];
      assert Range(k, |index|)[1..] == Range(k + 1, |index|);
    }
  }

  lemma {:induction false} DigitsIsFold(sizes: seq<I32>, order: seq<nat>, strides: seq<int>, index: seq<int>, k: nat)
    requires IsPermutation(order, |sizes|) && |strides| == |sizes| == |index| && k <= |order|
    requires forall j :: 0 <= j < |order| ==> strides[order[j]] == Suffix(sizes, order, j + 1) || index[order[j]] == 0
    ensures Digits(sizes, order[k..], index) == Fold(Sum, Products(strides, index), order[k..])
    decreases |order| - k
  {
    if k == |order| {
    } else {
      DigitsIsFold(sizes, order, strides, index, k + 1);
      assert order[k..][1..] == order[k + 1..];
    }
  }

  /** Summing by dimension number or along the dim order gives the same offset. */
  lemma OffsetAlongOrder(sizes: seq<I32>, order: seq<nat>, strides: seq<int>, index: seq<int>)
    requires IsPermutation(order, |sizes|) && |strides| == |sizes| == |index|
    requires forall k :: 0 <= k < |order| ==> strides[order[k]] == Suffix(sizes, order, k + 1) || index[order[k]] == 0
    ensures Offset(strides, index) == Digits(sizes, order, index)
  {
    var n := |sizes|;
    OffsetIsFold(strides, index, 0);
    DigitsIsFold(sizes, order, strides, index, 0);
    assert strides[0..] == strides && index[0..] == index && order[0..] == order;
    PermutationMultiset(order, Range(0, n), n);
    FoldPermutation(Sum, Products(strides, index), order, Range(0, n));
  }

  // ---- Mixed-radix numbering ----

  lemma {:induction false} DigitsBound(sizes: seq<I32>, s: seq<nat>, index: seq<int>)
    requires Indices(s, |sizes|) && ValidIndex(sizes, index)
    ensures 0 <= Digits(sizes, s, index) < Fold(Product, Factors(sizes), s)
  {
    if s == [] {
    } else {
      DigitsBound(sizes, s[1..], index);
      var f, r, i := Factors(sizes)[s[0]], Fold(Product, Factors(sizes), s[1..]), index[s[0]];
      MultipleGap(r, i, f);
      MultipleGap(r, 0, i);
      assert r * f == f * r;
    }
  }

  lemma {:induction false} DigitsInjective(sizes: seq<I32>, s: seq<nat>, x: seq<int>, y: seq<int>)
    requires Indices(s, |sizes|) && ValidIndex(sizes, x) && ValidIndex(sizes, y)
    requires Digits(sizes, s, x) == Digits(sizes, s, y)
    ensures forall k :: 0 <= k < |s| ==> x[s[k]] == y[s[k]]
  {
    if s == [] {
    } else {
      var r := Fold(Product, Factors(sizes), s[1..]);
      DigitsBound(sizes, s[1..], x);
      DigitsBound(sizes, s[1..], y);
      LeadingDigit(r, x[s[0]], Digits(sizes, s[1..], x), y[s[0]], Digits(sizes, s[1..], y));
      DigitsInjective(sizes, s[1..], x, y);
      forall k | 0 <= k < |s| ensures x[s[k]] == y[s[k]] {
        assert k > 0 ==> s[k] == s[1..][k - 1];
      }
    }
  }

  lemma LeadingDigit(r: int, i: int, u: int, j: int, v: int)
    requires 0 <= u < r && 0 <= v < r && r * i + u == r * j + v
    ensures i == j && u == v
  {
    MultipleGap(r, i, j);
    MultipleGap(r, j, i);
  }

  /** An index tuple whose digits along s are those of the number m. */
  lemma {:induction false} DigitsOnto(sizes: seq<I32>, s: seq<nat>, m: int) returns (index: seq<int>)
    requires Positive(sizes) && Indices(s, |sizes|) && Distinct(s)
    requires 0 <= m < Fold(Product, Factors(sizes), s)
    ensures ValidIndex(sizes, index) && Digits(sizes, s, index) == m
    ensures forall d :: 0 <= d < |sizes| && d !in s ==> index[d] == 0
  {
    if s == [] {
      index := seq(|sizes|, _ => 0);
    } else {
      var f, r := Factors(sizes)[s[0]], Fold(Product, Factors(sizes), s[1..]);
      ProductPositive(Factors(sizes), s[1..]);
      var rest := DigitsOnto(sizes, s[1..], m % r);
      QuotientBound(m, r, f);
      index := rest[s[0] := m / r];
      DigitsDependOnList(sizes, s[1..], rest, index);
    }
  }

  lemma QuotientBound(m: int, r: int, f: int)
    requires r >= 1 && 0 <= m < f * r
    ensures 0 <= m / r < f && r * (m / r) + m % r == m
  {
    MultipleGap(r, f, m / r);
    assert f * r == r * f;
  }

  lemma {:induction false} DigitsDependOnList(sizes: seq<I32>, s: seq<nat>, x: seq<int>, y: seq<int>)
    requires Indices(s, |sizes|) && |x| == |y| == |sizes|
    requires forall k :: 0 <= k < |s| ==> x[s[k]] == y[s[k]]
    ensures Digits(sizes, s, x) == Digits(sizes, s, y)
  {
    if s == [] {
    } else {
      assert forall k :: 0 <= k < |s[1..]| ==> s[1..][k] == s[k + 1];
      DigitsDependOnList(sizes, s[1..], x, y);
    }
  }

  // ---- Main results ----

  /** A dense tensor: positive sizes, and strides that describe its order wherever they matter. */
  ghost predicate Dense(meta: TensorMeta) {
    Positive(meta.sizes) && Describes(meta.sizes, meta.dimOrder, meta.strides)
  }

  lemma OffsetInRange(meta: TensorMeta, index: seq<int>)
    requires Dense(meta) && ValidIndex(meta.sizes, index)
    ensures 0 <= Offset(meta.strides, index) < Extent(meta.sizes)
  {
    OffsetAlongOrder(meta.sizes, meta.dimOrder, meta.strides, index);
    DigitsBound(meta.sizes, meta.dimOrder, index);
    ExtentAlongOrder(meta.sizes, meta.dimOrder);
    assert meta.dimOrder[0..] == meta.dimOrder;
  }

  lemma OffsetInjective(meta: TensorMeta, x: seq<int>, y: seq<int>)
    requires Dense(meta) && ValidIndex(meta.sizes, x) && ValidIndex(meta.sizes, y)
    requires Offset(meta.strides, x) == Offset(meta.strides, y)
    ensures x == y
  {
    OffsetAlongOrder(meta.sizes, meta.dimOrder, meta.strides, x);
    OffsetAlongOrder(meta.sizes, meta.dimOrder, meta.strides, y);
    DigitsInjective(meta.sizes, meta.dimOrder, x, y);
    forall d | 0 <= d < |x| ensures x[d] == y[d] {
      assert meta.dimOrder[Position(meta.dimOrder, |x|, d)] == d;
    }
  }

  /** Dense addressing is a bijection between the index box and 0 .. numel - 1. */
  lemma DenseBijection(meta: TensorMeta, m: int)
    requires Dense(meta)
    ensures forall x :: ValidIndex(meta.sizes, x) ==> 0 <= Offset(meta.strides, x) < Extent(meta.sizes)
    ensures forall x, y | ValidIndex(meta.sizes, x) && ValidIndex(meta.sizes, y)
              :: Offset(meta.strides, x) == Offset(meta.strides, y) ==> x == y
    ensures 0 <= m < Extent(meta.sizes) ==>
              exists x :: ValidIndex(meta.sizes, x) && Offset(meta.strides, x) == m
  {
    forall x | ValidIndex(meta.sizes, x)
      ensures 0 <= Offset(meta.strides, x) < Extent(meta.sizes)
    {
      OffsetInRange(meta, x);
    }
    forall x, y | ValidIndex(meta.sizes, x) && ValidIndex(meta.sizes, y)
                  && Offset(meta.strides, x) == Offset(meta.strides, y)
      ensures x == y
    {
      OffsetInjective(meta, x, y);
    }
    if 0 <= m < Extent(meta.sizes) {
      ExtentAlongOrder(meta.sizes, meta.dimOrder);
      assert meta.dimOrder[0..] == meta.dimOrder;
      var x := DigitsOnto(meta.sizes, meta.dimOrder, m);
      OffsetAlongOrder(meta.sizes, meta.dimOrder, meta.strides, x);
    }
  }

  /**
   A tensor that make_tensor_ptr builds is dense if and only if its exact strides fit 32 bits
   wherever they matter; and so are the strides that the user gave.
   */
  lemma AcceptedIsDense(sizes: seq<I32>, order: seq<nat>, strides: seq<I32>)
    requires Positive(sizes) && Accepts(sizes, order, strides)
    ensures Dense(TensorMeta(sizes, order, Strides(sizes, order))) <==> StridesFit(sizes, order)
    ensures strides != [] ==> (Dense(TensorMeta(sizes, order, strides)) <==> StridesFit(sizes, order))
  {
    StoredDescribes(sizes, order);
  }

  /**
   Accepted strides keep their meaning: user strides and stored strides send every valid index
   to the same offset, although they may differ on dimensions of size 1.
   */
  lemma AcceptedStridesKeepMeaning(sizes: seq<I32>, order: seq<nat>, strides: seq<I32>, index: seq<int>)
    requires Accepts(sizes, order, strides) && strides != []
    requires ValidIndex(sizes, index)
    ensures Offset(strides, index) == Offset(Strides(sizes, order), index)
  {
    SameProductsSameOffset(strides, Strides(sizes, order), index);
  }

  lemma {:induction false} SameProductsSameOffset(s: seq<int>, t: seq<int>, index: seq<int>)
    requires |s| == |t| == |index|
    requires forall d :: 0 <= d < |index| ==> s[d] == t[d] || index[d] == 0
    ensures Offset(s, index) == Offset(t, index)
  {
    if s == [] {
    } else {
      SameProductsSameOffset(s[1..], t[1..], index[1..]);
    }
  }

  // ---- When addressing is one-to-one ----

  /** Every valid index has an offset within the element count, and no two share one. */
  ghost predicate OneToOne(sizes: seq<I32>, strides: seq<int>)
    requires |strides| == |sizes|
  {
    && (forall x :: ValidIndex(sizes, x) ==> 0 <= Offset(strides, x) < Extent(sizes))
    && forall x, y | ValidIndex(sizes, x) && ValidIndex(sizes, y) :: Offset(strides, x) == Offset(strides, y) ==> x == y
  }

  /** The index that is 1 in dimension d and 0 elsewhere. */
  function Unit(n: nat, d: nat): (u: seq<int>)
    requires d < n
    ensures |u| == n && forall e :: 0 <= e < n ==> u[e] == if e == d then 1 else 0
  {
    seq(n, e => if e == d then 1 else 0)
  }

  lemma {:induction false} OffsetOfZeros(strides: seq<int>, index: seq<int>)
    requires |strides| == |index| && forall e :: 0 <= e < |index| ==> index[e] == 0
    ensures Offset(strides, index) == 0
  {
    if strides == [] {
    } else {
      OffsetOfZeros(strides[1..], index[1..]);
    }
  }

  lemma {:induction false} OffsetOfUnit(strides: seq<int>, index: seq<int>, d: nat)
    requires |strides| == |index| && d < |index|
    requires forall e :: 0 <= e < |index| ==> index[e] == if e == d then 1 else 0
    ensures Offset(strides, index) == strides[d]
  {
    if d == 0 {
      OffsetOfZeros(strides[1..], index[1..]);
    } else {
      OffsetOfUnit(strides[1..], index[1..], d - 1);
    }
  }

  /** Leading dimensions with index 0 add nothing. */
  lemma {:induction false} SkipZeroDigits(sizes: seq<I32>, order: seq<nat>, index: seq<int>, j: nat, k: nat)
    requires Indices(order, |sizes|) && |index| == |sizes| && j <= k <= |order|
    requires forall i :: j <= i < k ==> index[order[i]] == 0
    ensures Digits(sizes, order[j..], index) == Digits(sizes, order[k..], index)
    decreases k - j
  {
    if j == k {
    } else {
      SkipZeroDigits(sizes, order, index, j + 1, k);
      assert order[j..][1..] == order[j + 1..];
    }
  }

  /** Inside position k all strides fit. */
  ghost predicate FitsInside(sizes: seq<I32>, order: seq<nat>, k: nat)
    requires IsPermutation(order, |sizes|)
  {
    forall i :: k < i < |order| && sizes[order[i]] != 1 ==> Suffix(sizes, order, i + 1) < I32_LIMIT
  }

  /** From a stride that matters and does not fit to the innermost one. */
  lemma {:induction false} InnermostMisfit(sizes: seq<I32>, order: seq<nat>, j: nat) returns (k: nat)
    requires IsPermutation(order, |sizes|) && j < |order|
    requires sizes[order[j]] != 1 && Suffix(sizes, order, j + 1) >= I32_LIMIT
    ensures k < |order| && FitsInside(sizes, order, k)
    ensures sizes[order[k]] != 1 && Suffix(sizes, order, k + 1) >= I32_LIMIT
    decreases |order| - j
  {
    if FitsInside(sizes, order, j) {
      k := j;
    } else {
      var i :| j < i < |order| && sizes[order[i]] != 1 && Suffix(sizes, order, i + 1) >= I32_LIMIT;
      k := InnermostMisfit(sizes, order, i);
    }
  }

  /** Below the stride of position k, the dimensions inside it reach every offset. */
  lemma OffsetInside(sizes: seq<I32>, order: seq<nat>, k: nat, m: int) returns (index: seq<int>)
    requires Positive(sizes) && IsPermutation(order, |sizes|) && k < |order| && FitsInside(sizes, order, k)
    requires 0 <= m < Suffix(sizes, order, k + 1)
    ensures ValidIndex(sizes, index) && Offset(Strides(sizes, order), index) == m && index[order[k]] == 0
  {
    var inner, strides := order[k + 1..], Strides(sizes, order);
    index := DigitsOnto(sizes, inner, m);
    forall i | 0 <= i <= k ensures index[order[i]] == 0 {
      assert order[i] !in inner;
    }
    forall i | 0 <= i < |order| ensures strides[order[i]] == Suffix(sizes, order, i + 1) || index[order[i]] == 0 {
      if i > k && sizes[order[i]] != 1 {
        StrideIsExact(sizes, order, i);
      }
    }
    OffsetAlongOrder(sizes, order, strides, index);
    SkipZeroDigits(sizes, order, index, 0, k + 1);
    assert order[0..] == order;
  }

  /** A stride that does not fit gives two elements one address, or sends one before the buffer. */
  lemma MisfitBreaksAddressing(sizes: seq<I32>, order: seq<nat>, k: nat)
    requires Positive(sizes) && IsPermutation(order, |sizes|) && k < |order| && FitsInside(sizes, order, k)
    requires sizes[order[k]] != 1 && Suffix(sizes, order, k + 1) >= I32_LIMIT
    ensures !OneToOne(sizes, Strides(sizes, order))
  {
    var strides := Strides(sizes, order);
    var d, u := order[k], Unit(|sizes|, order[k]);
    OffsetOfUnit(strides, u, d);
    assert ValidIndex(sizes, u);
    if strides[d] >= 0 {
      var y := OffsetInside(sizes, order, k, strides[d]);
      assert u[d] != y[d];
    }
  }

  /**
   Addressing through stored strides is one-to-one if and only if the exact strides fit 32 bits
   wherever they matter.
   */
  lemma StoredAddressingIsOneToOne(sizes: seq<I32>, order: seq<nat>)
    requires Positive(sizes) && IsPermutation(order, |sizes|)
    ensures OneToOne(sizes, Strides(sizes, order)) <==> StridesFit(sizes, order)
  {
    if StridesFit(sizes, order) {
      StoredDescribes(sizes, order);
      DenseBijection(TensorMeta(sizes, order, Strides(sizes, order)), 0);
    } else {
      var j :| 0 <= j < |order| && sizes[order[j]] != 1 && Suffix(sizes, order, j + 1) >= I32_LIMIT;
      var k := InnermostMisfit(sizes, order, j);
      MisfitBreaksAddressing(sizes, order, k);
    }
  }

  /** The same for the strides that the user gave, when they are accepted. */
  lemma AcceptedAddressingIsOneToOne(sizes: seq<I32>, order: seq<nat>, strides: seq<I32>)
    requires Positive(sizes) && Accepts(sizes, order, strides) && strides != []
    ensures OneToOne(sizes, strides) <==> StridesFit(sizes, order)
    ensures OneToOne(sizes, Strides(sizes, order)) <==> StridesFit(sizes, order)
  {
    StoredAddressingIsOneToOne(sizes, order);
    forall x | ValidIndex(sizes, x) ensures Offset(strides, x) == Offset(Strides(sizes, order), x) {
      AcceptedStridesKeepMeaning(sizes, order, strides, x);
    }
  }

  // ---- Strides that wrap around ----

  lemma ThreeSuffixes(sizes: seq<I32>, order: seq<nat>, m: I32, n: I32)
    requires sizes == [2, m, n] && order == [0, 1, 2] && m > 0 && n > 0
    ensures Suffix(sizes, order, 1) == m as int * n as int
    ensures Suffix(sizes, order, 2) == n && Suffix(sizes, order, 3) == 1
  {
    SuffixStep(sizes, order, 2);
    SuffixStep(sizes, order, 1);
  }

  /** The stored strides of three dimensions in their natural order. */
  lemma ThreeStrides(sizes: seq<I32>, order: seq<nat>, m: I32, n: I32)
    requires sizes == [2, m, n] && order == [0, 1, 2] && m > 0 && n > 0
    ensures IsPermutation(order, 3) && Strides(sizes, order) == [Wrap32(m as int * n as int), n, 1]
  {
    ThreeSuffixes(sizes, order, m, n);
    StrideAt(sizes, order, 0);
    StrideAt(sizes, order, 1);
    StrideAt(sizes, order, 2);
    SmallDoesNotWrap(n);
    SmallDoesNotWrap(1);
  }

  /** The sort leaves descending strides as they are. */
  lemma AlreadySorted(strides: seq<I32>)
    requires |strides| == 3 && strides[0] >= strides[1] >= strides[2]
    ensures SortResult(strides, [0, 1, 2])
  {
    assert InitialOrder(3) == [0, 1, 2];
  }

  lemma OffsetOfThree(strides: seq<int>, index: seq<int>)
    requires |strides| == |index| == 3
    ensures Offset(strides, index) == strides[0] * index[0] + strides[1] * index[1] + strides[2] * index[2]
  {
    assert strides[1..][1..] == [strides[2]] && index[1..][1..] == [index[2]];
    assert Offset(strides[1..][1..], index[1..][1..]) == strides[2] * index[2] + Offset([], []);
  }

  /** Wrapped strides are accepted, because the stored ones wrap around in the same way. */
  lemma WrappedStridesAreAccepted(m: I32, n: I32, w: I32)
    requires m > 1 && n > 0 && w == Wrap32(m as int * n as int)
    ensures Strides([2, m, n], [0, 1, 2]) == [w, n, 1] && Accepts([2, m, n], [0, 1, 2], [w, n, 1])
  {
    ThreeStrides([2, m, n], [0, 1, 2], m, n);
  }

  /** If the outer stride wraps around to the inner one, the stored strides give two elements one address. */
  lemma WrappedStridesAlias(m: I32, n: I32)
    requires m > 1 && n > 0 && Wrap32(m as int * n as int) == n
    ensures ValidIndex([2, m, n], [1, 0, 0]) && ValidIndex([2, m, n], [0, 1, 0])
    ensures Offset(Strides([2, m, n], [0, 1, 2]), [1, 0, 0]) == Offset(Strides([2, m, n], [0, 1, 2]), [0, 1, 0])
  {
    WrappedStridesAreAccepted(m, n, n);
    OneStep(Strides([2, m, n], [0, 1, 2]));
  }

  /** One step along either of the two outer dimensions. */
  lemma OneStep(strides: seq<int>)
    requires |strides| == 3
    ensures Offset(strides, [1, 0, 0]) == strides[0] && Offset(strides, [0, 1, 0]) == strides[1]
  {
    OffsetOfThree(strides, [1, 0, 0]);
    OffsetOfThree(strides, [0, 1, 0]);
  }

  /** Distinct descending strides can be sorted in one way only. */
  lemma OnlySort(strides: seq<I32>, sorted: seq<nat>)
    requires |strides| == 3 && strides[0] > strides[1] > strides[2] && SortResult(strides, sorted)
    ensures sorted == [0, 1, 2]
  {
    SortIsPermutation(strides, sorted);
    assert sorted[0] != sorted[1] && sorted[0] != sorted[2] && sorted[1] != sorted[2];
    assert strides[sorted[0]] >= strides[sorted[1]] >= strides[sorted[2]];
  }

  /** Strides whose sort leads to a stride that does not fit describe no order. */
  lemma NotDescribed(sizes: seq<I32>, strides: seq<I32>, sorted: seq<nat>)
    requires Positive(sizes) && 1 <= |sizes| <= DIM_LIMIT && |strides| == |sizes| && SortResult(strides, sorted)
    requires !StridesFit(sizes, sorted)
    ensures !exists p :: Describes(sizes, p, strides)
  {
    AcceptedExactlyDense(sizes, strides, sorted);
  }

  lemma TooWide(sizes: seq<I32>, order: seq<nat>, m: I32, n: I32)
    requires sizes == [2, m, n] && order == [0, 1, 2] && m > 0 && n > 0 && m as int * n as int >= I32_LIMIT
    ensures !StridesFit(sizes, order)
  {
    ThreeSuffixes(sizes, order, m, n);
    assert sizes[order[0]] != 1;
  }

  /** If it does not fit, the wrapped strides describe no order. */
  lemma WrappedIsNotDescribed(m: I32, n: I32, w: I32)
    requires m > 1 && n > 1 && w > n && m as int * n as int >= I32_LIMIT
    ensures !exists p :: Describes([2, m, n], p, [w, n, 1])
  {
    var sizes: seq<I32>, strides: seq<I32>, order: seq<nat> := [2, m, n], [w, n, 1], [0, 1, 2];
    AlreadySorted(strides);
    TooWide(sizes, order, m, n);
    NotDescribed(sizes, strides, order);
  }

  /**
   Without a bound, strides may be accepted under every sort result although they describe no
   order: sizes [2, 4, 1500000000] with strides [1705032704, 1500000000, 1].
   */
  lemma NotDescribedExample(sorted: seq<nat>)
    requires SortResult([1705032704, 1500000000, 1], sorted)
    ensures Accepts([2, 4, 1500000000], sorted, [1705032704, 1500000000, 1])
    ensures !exists p :: Describes([2, 4, 1500000000], p, [1705032704, 1500000000, 1])
  {
    OnlySort([1705032704, 1500000000, 1], sorted);
    WrappedStridesAreAccepted(4, 1500000000, 1705032704);
    WrappedIsNotDescribed(4, 1500000000, 1705032704);
  }

  /**
   One-to-one addressing does fail for accepted strides: for sizes [2, 65537, 65536] the strides
   [65536, 65536, 1] are accepted and stored, and two different elements share an address.
   */
  lemma WrappedExample()
    ensures SortResult([65536, 65536, 1], [0, 1, 2])
    ensures Accepts([2, 65537, 65536], [0, 1, 2], [65536, 65536, 1])
    ensures Strides([2, 65537, 65536], [0, 1, 2]) == [65536, 65536, 1]
    ensures ValidIndex([2, 65537, 65536], [1, 0, 0]) && ValidIndex([2, 65537, 65536], [0, 1, 0])
    ensures Offset([65536, 65536, 1], [1, 0, 0]) == Offset([65536, 65536, 1], [0, 1, 0])
  {
    AlreadySorted([65536, 65536, 1]);
    WrappedStridesAreAccepted(65537, 65536, 65536);
    WrappedStridesAlias(65537, 65536);
  }
}
