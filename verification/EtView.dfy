/**
 et_view: resolving a view size that may leave one dimension to be inferred.
 */
module EtView {
  import opened Arith
  import opened ElementCount
  import opened Folds
  import opened LayoutRecovery
  import opened MachineInts
  import opened TensorImpl
  import opened TensorLayout
  import opened Wrappers

  datatype Status = Ok | InvalidArgument | Internal

  /** Division that rounds towards zero. */
  function TruncDiv(x: int, y: int): int
    requires y != 0
  {
    if (x >= 0) == (y > 0) then Abs(x) / Abs(y) else -(Abs(x) / Abs(y))
  }

  function Abs(x: int): nat {
    if x >= 0 then x else -x
  }

  /** The wrapping product of the first k sizes other than -1. */
  function Others(size: seq<I64>, k: nat): I64
    requires k <= |size|
  {
    if k == 0 then 1
    else if size[k - 1] == -1 then Others(size, k - 1)
    else Wrap64(Others(size, k - 1) as int * size[k - 1] as int)
  }

  /** At most one -1 and nothing below it among the first k sizes. */
  predicate WellFormed(size: seq<I64>, k: nat)
    requires k <= |size|
  {
    && (forall i :: 0 <= i < k ==> size[i] >= -1)
    && forall i, j :: 0 <= i < j < k && size[i] == -1 ==> size[j] != -1
  }

  /** The resolved sizes, or None when the request is rejected. */
  function Resolve(selfNumel: I64, size: seq<I64>): (r: Option<seq<I32>>)
    ensures r.Some? ==> |r.value| == |size|
  {
    var others := Others(size, |size|);
    if !WellFormed(size, |size|) || (-1 in size && others == 0) then None
    else Some(seq(|size|, i requires 0 <= i < |size| =>
      if size[i] == -1 && others != 0 then Wrap32(TruncDiv(selfNumel, others)) else Wrap32(size[i])))
  }

  method ViewTargetSize(selfNumel: I64, size: seq<I64>, dim: nat, out: array<I32>) returns (ok: bool)
    requires dim <= out.Length
    modifies out
    ensures ok <==> |size| == dim && Resolve(selfNumel, size).Some?
    ensures ok ==> out[..dim] == Resolve(selfNumel, size).value
    ensures out[dim..] == old(out[dim..])
  {
    if |size| != dim {
      return false;
    }
    var minus1: int := -1;
    var others: I64 := 1;
    for i := 0 to dim
      invariant -1 <= minus1 < i && WellFormed(size, i)
      invariant minus1 >= 0 ==> size[minus1] == -1
      invariant forall k :: 0 <= k < i && size[k] == -1 ==> k == minus1
      invariant others == Others(size, i)
      invariant forall k :: 0 <= k < i && size[k] != -1 ==> out[k] == Wrap32(size[k])
      invariant forall k :: dim <= k < out.Length ==> out[k] == old(out[k])
    {
      var s := size[i];
      if s == -1 {
        if minus1 != -1 {
          assert size[minus1] == -1 && size[i] == -1;
          return false;
        }
        minus1 := i;
      } else if s < -1 {
        return false;
      } else {
        others := Wrap64(others as int * s as int);
        out[i] := Wrap32(s);
      }
    }
    if minus1 >= 0 {
      assert -1 in size;
      if others == 0 {
        return false;
      }
      out[minus1] := Wrap32(TruncDiv(selfNumel, others));
    }
    return true;
  }

  /**
   The operator: makes `out` a view of the data at `selfData`. A shape that `out` took is kept even
   when the element counts then differ; the last step, setting the data pointer with the size of
   `out` itself, cannot fail.
   */
  method EtView(selfNumel: I64, selfData: nat, size: seq<I64>, sameType: bool, out: TensorImpl)
    returns (status: Status)
    requires out.Valid()
    modifies out
    ensures out.Valid()
    ensures !sameType || old(|out.sizes|) > 16 || |size| != old(|out.sizes|) ==> status.InvalidArgument?
    ensures var dim, shape := old(|out.sizes|), Resolve(selfNumel, size);
      if !(sameType && dim <= 16 && |size| == dim && shape.Some?) then status.InvalidArgument?
      else if !old(out.Takes(shape.value)) then status.Internal?
      else
        && out.sizes == shape.value && out.numel == old(out.NumelFor(shape.value))
        && status == if selfNumel == out.numel then Status.Ok else Status.InvalidArgument
    ensures status.Ok? ==> out.data == selfData
    ensures !status.Ok? ==> out.data == old(out.data)
    ensures !sameType || old(|out.sizes|) > 16 || |size| != old(|out.sizes|) || Resolve(selfNumel, size).None?
            || status.Internal? ==>
      out.sizes == old(out.sizes) && out.numel == old(out.numel) && out.strides == old(out.strides)
  {
    var dim := |out.sizes|;
    if !sameType || dim > DIM_LIMIT {
      return Status.InvalidArgument;
    }
    var expected := new I32[DIM_LIMIT](_ => 0);
    var ok := ViewTargetSize(selfNumel, size, dim, expected);
    if !ok {
      return Status.InvalidArgument;
    }
    var err := out.InternalResizeContiguous(expected[..dim]);
    if !err.Ok? {
      return Internal;
    }
    if selfNumel != out.numel {
      return Status.InvalidArgument;
    }
    out.data := selfData;
    return Status.Ok;
  }

  // ---- Soundness and completeness ----

  /** The exact product of the first k sizes other than -1. */
  function ExactOthers(size: seq<I64>, k: nat): int
    requires k <= |size|
  {
    if k == 0 then 1
    else if size[k - 1] == -1 then ExactOthers(size, k - 1)
    else ExactOthers(size, k - 1) * size[k - 1] as int
  }

  lemma {:induction false} OthersWrap(size: seq<I64>, k: nat)
    requires k <= |size|
    ensures Others(size, k) == Wrap64(ExactOthers(size, k))
  {
    if k == 0 {
    } else {
      OthersWrap(size, k - 1);
      if size[k - 1] != -1 {
        Wrap64Product(ExactOthers(size, k - 1), size[k - 1]);
      }
    }
  }

  /** No given size is cut off when it is stored in 32 bits. */
  predicate GivenFit(size: seq<I64>) {
    forall i :: 0 <= i < |size| ==> size[i] < I32_LIMIT
  }

  /** With one size to infer: the product of the others does not wrap around to 0, and the size fits. */
  predicate InferredFits(selfNumel: I64, size: seq<I64>) {
    var others := ExactOthers(size, |size|);
    -1 in size ==> Others(size, |size|) != 0 && (others > 0 ==> selfNumel / others < I32_LIMIT)
  }

  /** A shape that agrees with the request on every given dimension. */
  ghost predicate Completes(shape: seq<int>, size: seq<I64>) {
    |shape| == |size| && forall i :: 0 <= i < |size| && size[i] != -1 ==> shape[i] == size[i]
  }

  /** The product of a completion: the given sizes times the one that is inferred, if any. */
  lemma {:induction false} CompletionProduct(shape: seq<int>, size: seq<I64>, k: nat, x: int)
    requires Completes(shape, size) && k <= |size| && WellFormed(size, |size|)
    requires forall i :: 0 <= i < |size| && size[i] == -1 ==> shape[i] == x
    ensures PrefixProduct(shape, k) == ExactOthers(size, k) * (if exists i :: 0 <= i < k && size[i] == -1 then x else 1)
  {
    if k == 0 {
    } else {
      CompletionProduct(shape, size, k - 1, x);
      var p, y := ExactOthers(size, k - 1), shape[k - 1];
      if size[k - 1] == -1 {
        assert !exists i :: 0 <= i < k - 1 && size[i] == -1;
      } else if exists i :: 0 <= i < k - 1 && size[i] == -1 {
        Swap(p, x, y);
      }
    }
  }

  lemma Swap(p: int, x: int, y: int)
    ensures (p * x) * y == (p * y) * x
  {
  }

  /** When a request can be met: fully given with the right product, or inferable without remainder. */
  ghost predicate Satisfiable(selfNumel: I64, size: seq<I64>) {
    var others := ExactOthers(size, |size|);
    && WellFormed(size, |size|)
    && if -1 in size then others != 0 && selfNumel as int % others == 0 else others == selfNumel
  }

  lemma {:induction false} OthersNonNegative(size: seq<I64>, k: nat)
    requires k <= |size| && WellFormed(size, |size|)
    ensures ExactOthers(size, k) >= 0
  {
    if k == 0 {
    } else {
      OthersNonNegative(size, k - 1);
      if size[k - 1] != -1 {
        NonNegativeProduct(ExactOthers(size, k - 1), size[k - 1]);
      }
    }
  }

  /** Which requests are rejected: a size below -1, two sizes to infer, or one that nothing determines. */
  lemma RejectedRequests(selfNumel: I64, size: seq<I64>)
    ensures Resolve(selfNumel, size).None? <==>
      || (exists i :: 0 <= i < |size| && size[i] < -1)
      || (exists i, j :: 0 <= i < j < |size| && size[i] == -1 && size[j] == -1)
      || (-1 in size && Wrap64(ExactOthers(size, |size|)) == 0)
  {
    OthersWrap(size, |size|);
  }

  /** `shape` is the only completion of the request with n elements. */
  ghost predicate IsOnlyCompletion(shape: seq<int>, size: seq<I64>, n: nat) {
    && Completes(shape, size) && PrefixProduct(shape, |shape|) == n
    && forall other :: Completes(other, size) && PrefixProduct(other, |other|) == n ==> other == shape
  }

  /** A request can be met exactly when it determines a shape. */
  lemma SatisfiableMeansOneCompletion(selfNumel: I64, size: seq<I64>)
    requires selfNumel >= 0
    ensures Satisfiable(selfNumel, size) <==>
      && (forall i :: 0 <= i < |size| ==> size[i] >= -1)
      && (forall i, j :: 0 <= i < j < |size| && size[i] == -1 ==> size[j] != -1)
      && exists shape :: IsOnlyCompletion(shape, size, selfNumel)
  {
    if WellFormed(size, |size|) {
      OthersNonNegative(size, |size|);
      if j: nat :| j < |size| && size[j] == -1 {
        OneCompletion(selfNumel, size, j);
      } else {
        GivenCompletion(selfNumel, size);
      }
    }
  }

  lemma GivenCompletion(n: nat, size: seq<I64>)
    requires WellFormed(size, |size|) && -1 !in size
    ensures ExactOthers(size, |size|) == n <==> exists shape :: IsOnlyCompletion(shape, size, n)
  {
    var given: seq<int> := size;
    CompletionProduct(given, size, |size|, 0);
    forall other | Completes(other, size) ensures other == given {
    }
    if ExactOthers(size, |size|) == n {
      assert IsOnlyCompletion(given, size, n);
    }
  }

  lemma OneCompletion(n: nat, size: seq<I64>, j: nat)
    requires WellFormed(size, |size|) && j < |size| && size[j] == -1 && ExactOthers(size, |size|) >= 0
    ensures var others := ExactOthers(size, |size|);
      others != 0 && n % others == 0 <==> exists shape :: IsOnlyCompletion(shape, size, n)
  {
    var others := ExactOthers(size, |size|);
    if others != 0 && n % others == 0 {
      QuotientCompletes(n, size, j);
    } else if shape :| IsOnlyCompletion(shape, size, n) {
      CompletionProduct(shape, size, |size|, shape[j]);
      if others == 0 {
        var other := shape[j := shape[j] + 1];
        CompletionProduct(other, size, |size|, other[j]);
        assert false;
      } else {
        DivMod(others, n, shape[j], 0);
      }
    }
  }

  lemma QuotientCompletes(n: nat, size: seq<I64>, j: nat)
    requires WellFormed(size, |size|) && j < |size| && size[j] == -1
    requires ExactOthers(size, |size|) > 0 && n % ExactOthers(size, |size|) == 0
    ensures exists shape :: IsOnlyCompletion(shape, size, n)
  {
    var others := ExactOthers(size, |size|);
    var given: seq<int> := size;
    var shape := given[j := n / others];
    CompletionProduct(shape, size, |size|, n / others);
    DividesExactly(n, others);
    forall other | Completes(other, size) && PrefixProduct(other, |other|) == n ensures other == shape {
      CompletionProduct(other, size, |size|, other[j]);
      DivMod(others, n, other[j], 0);
    }
    assert IsOnlyCompletion(shape, size, n);
  }

  lemma DividesExactly(n: nat, p: nat)
    requires p > 0
    ensures p * (n / p) == n <==> n % p == 0
  {
    assert n == p * (n / p) + n % p;
  }

  /** The request is resolved to a shape of the right element count. */
  predicate Resolved(selfNumel: I64, size: seq<I64>) {
    var r := Resolve(selfNumel, size);
    r.Some? && PrefixProduct(r.value, |size|) == selfNumel
  }

  lemma ResolvedGiven(selfNumel: I64, size: seq<I64>)
    requires GivenFit(size) && Resolve(selfNumel, size).Some?
    ensures Completes(Resolve(selfNumel, size).value, size)
  {
    forall i | 0 <= i < |size| && size[i] != -1 ensures Resolve(selfNumel, size).value[i] == size[i] {
      SmallDoesNotWrap(size[i]);
    }
  }

  /** Without a size to infer, the resolved shape is the request. */
  lemma NothingToInfer(selfNumel: I64, size: seq<I64>)
    requires GivenFit(size) && WellFormed(size, |size|) && -1 !in size
    ensures Resolved(selfNumel, size) <==> ExactOthers(size, |size|) == selfNumel
  {
    ResolvedGiven(selfNumel, size);
    CompletionProduct(Resolve(selfNumel, size).value, size, |size|, 0);
  }

  /** With one, its product with the others is the element count exactly when it is the exact quotient. */
  lemma OneToInfer(selfNumel: I64, size: seq<I64>, j: nat)
    requires selfNumel >= 0 && GivenFit(size) && WellFormed(size, |size|) && Others(size, |size|) != 0
    requires j < |size| && size[j] == -1
    ensures var x, others := Resolve(selfNumel, size).value[j], ExactOthers(size, |size|);
      Resolved(selfNumel, size) <==> others * x == selfNumel
  {
    ResolvedGiven(selfNumel, size);
    CompletionProduct(Resolve(selfNumel, size).value, size, |size|, Resolve(selfNumel, size).value[j]);
  }

  lemma TruncDivNatural(n: nat, p: nat)
    requires p > 0
    ensures TruncDiv(n, p) == n / p
  {
    MultipleGap(p, n / p, 0);
  }

  /** The inferred size, whether or not the product of the others wrapped around. */
  lemma InferredSize(n: nat, others: nat, w: I64)
    requires n < I64_LIMIT && w == Wrap64(others) && w != 0
    ensures others * Wrap32(TruncDiv(n, w)) == n <==> n % others == 0 && n / others < I32_LIMIT
  {
    if others < I64_LIMIT {
      SmallDoesNotWrap64(others);
      InferredWithoutWrap(n, others);
    } else {
      InferredUnderWrap(n, others, w);
    }
  }

  lemma InferredWithoutWrap(n: nat, others: nat)
    requires others > 0
    ensures others * Wrap32(TruncDiv(n, others)) == n <==> n % others == 0 && n / others < I32_LIMIT
  {
    TruncDivNatural(n, others);
    SmallQuotient(n, others);
  }

  lemma InferredUnderWrap(n: nat, others: nat, w: I64)
    requires n < others && w != 0
    ensures others * Wrap32(TruncDiv(n, w)) == n <==> n % others == 0 && n / others < I32_LIMIT
  {
    var x := Wrap32(TruncDiv(n, w));
    LargeDivisor(n, others, x);
    if n == 0 {
      ZeroQuotient(w);
    }
  }

  lemma ZeroQuotient(w: I64)
    requires w != 0
    ensures Wrap32(TruncDiv(0, w)) == 0
  {
    DivMod(Abs(w), 0, 0, 0);
    SmallDoesNotWrap(0);
  }

  lemma QuotientInRange(n: nat, p: nat)
    requires p > 0
    ensures 0 <= n / p <= n && n == p * (n / p) + n % p
  {
    MultipleGap(p, n / p, 0);
    AtMostProduct(p, n / p);
  }

  /** Cutting the quotient off at 32 bits keeps the product only if nothing was cut off. */
  lemma SmallQuotient(n: nat, p: nat)
    requires p > 0
    ensures p * Wrap32(n / p) == n <==> n % p == 0 && n / p < I32_LIMIT
  {
    QuotientInRange(n, p);
    if n / p < I32_LIMIT {
      SmallDoesNotWrap(n / p);
      DividesExactly(n, p);
    } else if p * Wrap32(n / p) == n {
      DivMod(p, n, Wrap32(n / p), 0);
    }
  }

  /** A divisor larger than n divides it only if n is 0. */
  lemma LargeDivisor(n: nat, p: nat, x: int)
    requires n < p
    ensures n % p == n && n / p == 0
    ensures p * x == n ==> x == 0 && n == 0
  {
    DivMod(p, n, 0, n);
    MultipleGap(p, 0, x);
    MultipleGap(p, x, 0);
    MultipleGap(p, 1, x);
  }

  /**
   View resolution is sound and complete, as far as 32 bits hold the sizes: a request of given
   sizes that fit is resolved to a shape of the right element count if and only if it is
   satisfiable and the inferred size fits.
   */
  lemma ViewResolution(selfNumel: I64, size: seq<I64>)
    requires selfNumel >= 0 && GivenFit(size)
    ensures Resolved(selfNumel, size) <==> Satisfiable(selfNumel, size) && InferredFits(selfNumel, size)
  {
    var n := |size|;
    OthersWrap(size, n);
    if WellFormed(size, n) {
      OthersNonNegative(size, n);
      if -1 !in size {
        NothingToInfer(selfNumel, size);
      } else if Others(size, n) != 0 {
        var j: nat :| j < n && size[j] == -1;
        OneToInfer(selfNumel, size, j);
        InferredSize(selfNumel, ExactOthers(size, n), Others(size, n));
      }
    }
  }

  /**
   For all requests: the resolved shape has the right element count and completes the request if
   and only if that is satisfiable and every size fits.
   */
  lemma ViewResolutionIsExact(selfNumel: I64, size: seq<I64>)
    requires selfNumel >= 0
    ensures Resolved(selfNumel, size) && Completes(Resolve(selfNumel, size).value, size)
       <==> Satisfiable(selfNumel, size) && GivenFit(size) && InferredFits(selfNumel, size)
  {
    if GivenFit(size) {
      ViewResolution(selfNumel, size);
      if Resolved(selfNumel, size) {
        ResolvedGiven(selfNumel, size);
      }
    } else if Resolved(selfNumel, size) {
      var i: nat :| i < |size| && size[i] >= I32_LIMIT;
      assert Resolve(selfNumel, size).value[i] < I32_LIMIT;
    }
  }

  /** A size of 2^32 + 3 is stored as 3, so it is accepted for 3 elements although nothing completes it. */
  lemma CutOffSizeIsAccepted(size: seq<I64>)
    requires size == [4294967299]
    ensures Resolve(3, size) == Some([3]) && Resolved(3, size) && !Satisfiable(3, size)
  {
    assert ExactOthers(size, 1) == ExactOthers(size, 0) * 4294967299;
    var r := Resolve(3, size);
    assert r.Some? && r.value[0] == Wrap32(4294967299) == 3;
    assert r.value == [3];
    assert PrefixProduct(r.value, 1) == PrefixProduct(r.value, 0) * r.value[0];
  }

  /** A single inferred size of 2^31 elements does not fit and is rejected although it would be right. */
  lemma LargeInferredSizeIsRejected(size: seq<I64>)
    requires size == [-1]
    ensures Satisfiable(2147483648, size) && !Resolved(2147483648, size)
  {
    assert size[0] == -1 && -1 in size;
    assert ExactOthers(size, 0) == 1 && ExactOthers(size, 1) == 1;
    ViewResolution(2147483648, size);
  }

  /** For an empty tensor, given sizes whose product is 2^64 are rejected although 0 would complete them. */
  lemma WrappedProductIsRejected(size: seq<I64>)
    requires size == [4294967296, 4294967296, -1]
    ensures Satisfiable(0, size) && Resolve(0, size).None?
  {
    assert size[2] == -1 && -1 in size;
    assert ExactOthers(size, 1) == 4294967296;
    assert ExactOthers(size, 2) == 4294967296 * 4294967296 == ExactOthers(size, 3);
    OthersWrap(size, 3);
    assert Wrap64(4294967296 * 4294967296) == 0;
  }

  /** The resolved shape is the only completion with that element count. */
  lemma CompletionIsUnique(selfNumel: I64, size: seq<I64>, shape: seq<int>)
    requires selfNumel >= 0 && Satisfiable(selfNumel, size) && GivenFit(size) && InferredFits(selfNumel, size)
    requires Completes(shape, size) && PrefixProduct(shape, |size|) == selfNumel
    ensures Resolve(selfNumel, size) == Some(shape)
  {
    var n, others := |size|, ExactOthers(size, |size|);
    ViewResolution(selfNumel, size);
    ResolvedGiven(selfNumel, size);
    OthersNonNegative(size, n);
    var resolved := Resolve(selfNumel, size).value;
    if j: nat :| j < n && size[j] == -1 {
      CompletionProduct(shape, size, n, shape[j]);
      OneToInfer(selfNumel, size, j);
      assert others * shape[j] == selfNumel == others * resolved[j];
      DivMod(others, selfNumel, shape[j], 0);
      DivMod(others, selfNumel, resolved[j], 0);
    }
    assert resolved == shape;
  }

  /**
   The view succeeds for every request of at least one element that determines a shape whose sizes
   fit, on a tensor of that rank with room for the elements.
   */
  method ViewOf(selfNumel: I64, selfData: nat, size: seq<I64>, shape: seq<I32>, out: TensorImpl)
    returns (status: Status)
    requires out.Valid() && !out.dynamism.Static? && 1 <= |shape| == |out.sizes| <= 16
    requires out.layout.Layout? ==> IsPermutation(out.layout.dimOrder, |shape|)
    requires 1 <= selfNumel <= out.numelBound
    requires forall i :: 0 <= i < |size| ==> size[i] >= -1
    requires forall i, j :: 0 <= i < j < |size| && size[i] == -1 ==> size[j] != -1
    requires IsOnlyCompletion(shape, size, selfNumel)
    modifies out
    ensures status.Ok? && out.sizes == shape && out.numel == selfNumel && out.data == selfData
  {
    OnlyCompletionIsResolved(selfNumel, size, shape);
    status := EtView(selfNumel, selfData, size, true, out);
  }

  lemma OnlyCompletionIsResolved(selfNumel: I64, size: seq<I64>, shape: seq<I32>)
    requires selfNumel >= 1 && WellFormed(size, |size|) && IsOnlyCompletion(shape, size, selfNumel)
    ensures Resolve(selfNumel, size) == Some(shape)
    ensures NonNegative(shape) && PrefixesFit(shape, |shape|)
  {
    CompletionIsPositive(selfNumel, size, shape);
    forall k | 0 <= k <= |shape| ensures PrefixProduct(shape, k) < I64_LIMIT {
      PrefixesGrow(shape, k, |shape|);
    }
    SatisfiableMeansOneCompletion(selfNumel, size);
    assert Satisfiable(selfNumel, size);
    CompletionFits(selfNumel, size, shape);
    CompletionIsUnique(selfNumel, size, shape);
  }

  /** A completion with elements has no empty dimension, and an inferred size is the quotient. */
  lemma CompletionIsPositive(selfNumel: I64, size: seq<I64>, shape: seq<I32>)
    requires selfNumel >= 1 && WellFormed(size, |size|)
    requires Completes(shape, size) && PrefixProduct(shape, |shape|) == selfNumel
    ensures Positive(shape)
  {
    forall d | 0 <= d < |shape| ensures shape[d] >= 1 {
      if shape[d] == 0 {
        EmptyDimension(shape, d, |shape|);
      }
      if size[d] == -1 {
        CompletionProduct(shape, size, |size|, shape[d]);
        OthersNonNegative(size, |size|);
        MultipleGap(ExactOthers(size, |size|), shape[d], 0);
      }
    }
  }

  lemma CompletionFits(selfNumel: I64, size: seq<I64>, shape: seq<I32>)
    requires selfNumel >= 1 && WellFormed(size, |size|) && Positive(shape)
    requires Completes(shape, size) && PrefixProduct(shape, |shape|) == selfNumel
    ensures GivenFit(size) && InferredFits(selfNumel, size)
  {
    if j: nat :| j < |size| && size[j] == -1 {
      var others := ExactOthers(size, |size|);
      CompletionProduct(shape, size, |size|, shape[j]);
      OthersNonNegative(size, |size|);
      OthersWrap(size, |size|);
      assert others * shape[j] == selfNumel;
      AtMostProduct(shape[j], others);
      DivMod(others, selfNumel, shape[j], 0);
    }
  }
}
