/**
 TensorAccessor: element access by chained indexing, outermost dimension first.
 */
module TensorAccessor {
  import opened Folds
  import opened MachineInts
  import opened TensorLayout
  import opened LayoutRecovery
  import opened DenseAddressing

  datatype Error = InvalidArgument | NotSupported
  datatype Result<+T> = Success(value: T) | Failure(error: Error)

  /**
   `data` is the element offset from the tensor's data pointer; `sizes` and `strides` are what
   the metadata pointers still point at. `rank` is the compile-time N and never changes.
   */
  datatype Accessor = Accessor(rank: nat, data: int, sizes: seq<I32>, strides: seq<I32>, dim: int)

  predicate TrivialOrder(order: seq<nat>) {
    forall i :: 0 <= i < |order| ==> order[i] == i
  }

  function MakeTensorAccessor(rank: nat, scalarBytes: nat, meta: TensorMeta, elementBytes: nat): (r: Result<Accessor>)
    requires rank > 0 && |meta.dimOrder| == |meta.strides| == |meta.sizes|
    ensures r == Failure(InvalidArgument) <==> rank != |meta.sizes| || scalarBytes != elementBytes
    ensures r == Failure(NotSupported) <==>
      rank == |meta.sizes| && scalarBytes == elementBytes && meta.dimOrder != Range(0, rank)
    ensures r.Success? ==> r.value == Accessor(rank, 0, meta.sizes, meta.strides, rank)
  {
    assert TrivialOrder(meta.dimOrder) <==> meta.dimOrder == Range(0, |meta.sizes|);
    if rank != |meta.sizes| then Failure(InvalidArgument)
    else if scalarBytes != elementBytes then Failure(InvalidArgument)
    else if !TrivialOrder(meta.dimOrder) then Failure(NotSupported)
    else Success(Accessor(rank, 0, meta.sizes, meta.strides, rank))
  }

  function Index(acc: Accessor, i: int): Accessor
    requires |acc.sizes| == |acc.strides| >= 1
  {
    Accessor(acc.rank, acc.data + acc.strides[0] as int * i, acc.sizes[1..], acc.strides[1..], acc.rank - 1)
  }

  /** The element that scalar(i) refers to. */
  function Scalar(acc: Accessor, i: int): int
    requires |acc.strides| >= 1
  {
    acc.data + acc.strides[0] as int * i
  }

  /** acc.index(path[0]).index(path[1])... */
  function Chain(acc: Accessor, path: seq<int>): (r: Accessor)
    requires |acc.sizes| == |acc.strides| >= |path|
    ensures |r.sizes| == |r.strides| == |acc.strides| - |path|
    decreases |path|
  {
    if path == [] then acc else Chain(Index(acc, path[0]), path[1..])
  }

  /** The element reached by indexing every dimension but the last, then taking the scalar. */
  function At(acc: Accessor, index: seq<int>): int
    requires |acc.sizes| == |acc.strides| == |index| >= 1
  {
    var last := |index| - 1;
    Scalar(Chain(acc, index[..last]), index[last])
  }

  /** Position of an index tuple in row-major enumeration, over the first k dimensions. */
  function RowMajorRank(sizes: seq<I32>, index: seq<int>, k: nat): int
    requires |sizes| == |index| && k <= |index|
  {
    if k == 0 then 0 else RowMajorRank(sizes, index, k - 1) * sizes[k - 1] as int + index[k - 1]
  }

  lemma {:induction false} ChainAddsOffset(acc: Accessor, index: seq<int>)
    requires |acc.sizes| == |acc.strides| == |index| >= 1
    ensures At(acc, index) == acc.data + Offset(acc.strides, index)
    decreases |index|
  {
    var last := |index| - 1;
    if last == 0 {
      assert Offset(acc.strides[1..], index[1..]) == 0;
    } else {
      ChainAddsOffset(Index(acc, index[0]), index[1..]);
      assert index[..last][1..] == index[1..][..last - 1];
      assert Offset(acc.strides, index) == acc.strides[0] as int * index[0] + Offset(acc.strides[1..], index[1..]);
    }
  }

  lemma AppendFactor(f: seq<int>, s: seq<nat>, d: nat)
    requires Indices(s, |f|) && d < |f|
    ensures Fold(Product, f, s + [d]) == Fold(Product, f, s) * f[d]
  {
    FoldConcat(Product, f, s, [d]);
    assert [d][1..] == [];
  }

  lemma Regroup(r: int, f: int, i: int, u: int)
    ensures (r * f) * i + u * f == (r * i + u) * f
  {
    assert (r * f) * i == (r * i) * f;
  }

  lemma {:induction false} AppendDigit(sizes: seq<I32>, s: seq<nat>, d: nat, index: seq<int>)
    requires Indices(s, |sizes|) && d < |sizes| == |index|
    ensures Digits(sizes, s + [d], index) == Digits(sizes, s, index) * Factors(sizes)[d] + index[d]
  {
    var f := Factors(sizes);
    if s == [] {
      assert s + [d] == [d] && [d][1..] == [];
      assert Digits(sizes, [], index) == 0;
    } else {
      assert (s + [d])[1..] == s[1..] + [d];
      AppendDigit(sizes, s[1..], d, index);
      AppendFactor(f, s[1..], d);
      Regroup(Fold(Product, f, s[1..]), f[d], index[s[0]], Digits(sizes, s[1..], index));
    }
  }

  lemma {:induction false} DigitsAreRowMajor(sizes: seq<I32>, index: seq<int>, k: nat)
    requires Positive(sizes) && |sizes| == |index| && k <= |index|
    ensures Digits(sizes, Range(0, k), index) == RowMajorRank(sizes, index, k)
  {
    if k == 0 {
    } else {
      DigitsAreRowMajor(sizes, index, k - 1);
      assert Range(0, k) == Range(0, k - 1) + [k - 1];
      AppendDigit(sizes, Range(0, k - 1), k - 1, index);
    }
  }

  /**
   For an accepted dense tensor, chained indexing reads the element at the tensor's own offset
   of the tuple, and that is the tuple's row-major rank.
   */
  lemma ChainedIndexing(rank: nat, bytes: nat, meta: TensorMeta, elementBytes: nat, index: seq<int>)
    requires rank > 0 && Dense(meta) && ValidIndex(meta.sizes, index)
    requires MakeTensorAccessor(rank, bytes, meta, elementBytes).Success?
    ensures var acc := MakeTensorAccessor(rank, bytes, meta, elementBytes).value;
      At(acc, index) == Offset(meta.strides, index) == RowMajorRank(meta.sizes, index, rank)
  {
    ChainAddsOffset(MakeTensorAccessor(rank, bytes, meta, elementBytes).value, index);
    OffsetAlongOrder(meta.sizes, meta.dimOrder, meta.strides, index);
    assert meta.dimOrder == Range(0, rank);
    DigitsAreRowMajor(meta.sizes, index, rank);
  }

  /**
   The `dim` field tells the remaining rank only up to the first indexing step: every later
   step stores rank - 1 again.
   */
  lemma {:induction false} DimIsRemainingRank(acc: Accessor, path: seq<int>)
    requires |acc.sizes| == |acc.strides| >= |path|
    requires acc.dim == acc.rank == |acc.strides|
    ensures Chain(acc, path).dim == |Chain(acc, path).strides| <==> |path| <= 1
  {
    if |path| > 0 {
      ChainKeepsDim(Index(acc, path[0]), path[1..]);
    }
  }

  lemma {:induction false} ChainKeepsDim(acc: Accessor, path: seq<int>)
    requires |acc.sizes| == |acc.strides| >= |path| && acc.dim == acc.rank - 1
    ensures Chain(acc, path).dim == acc.rank - 1
    decreases |path|
  {
    if path == [] {
    } else {
      ChainKeepsDim(Index(acc, path[0]), path[1..]);
    }
  }
}
