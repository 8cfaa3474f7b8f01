/**
 Memory layouts of tensors: sizes, dim order and strides.

 `dim_order` lists the dimensions from the outermost to the innermost; the stride of a
 dimension is the product of the sizes listed after it. `make_tensor_ptr` may be given the
 strides only, in which case it guesses the order by sorting the dimensions by stride.
 */
module TensorLayout {
  import opened Folds
  import opened MachineInts
  import opened Wrappers

  const DIM_LIMIT: nat := 16

  datatype Outcome<+T> = Ok(value: T) | Abort

  datatype TensorMeta = TensorMeta(sizes: seq<I32>, dimOrder: seq<nat>, strides: seq<I32>)

  /** An element type and its width in bytes. */
  datatype ScalarType = ScalarType(id: nat, bytes: nat)

  datatype Dynamism = Static | DynamicBound | DynamicUnbound

  datatype Device = Cpu | Accelerator(index: nat)

  /** What runs when the storage is dropped: a caller's function, or the release of an owned buffer. */
  datatype Deleter = Custom(id: nat) | OwnsBuffer

  /** A tensor; D is what its data pointer points at. */
  datatype Tensor<+D> = Tensor(meta: TensorMeta, data: D, scalarType: ScalarType, numel: I64,
                               dynamism: Dynamism, device: Device, deleter: Option<Deleter>)

  // ---- Permutations ----

  ghost predicate IsPermutation(order: seq<nat>, n: nat) {
    |order| == n && Indices(order, n) && Distinct(order)
  }

  function Elements(s: seq<nat>): set<nat> {
    if s == [] then {} else {s[0]} + Elements(s[1..])
  }

  function Below(n: nat): (s: set<nat>)
    ensures |s| == n && forall d :: d in s <==> 0 <= d < n
  {
    if n == 0 then {} else Below(n - 1) + {n - 1}
  }

  lemma {:induction false} ElementsMembers(s: seq<nat>)
    ensures forall d :: d in Elements(s) <==> d in s
  {
    if s == [] {
    } else {
      ElementsMembers(s[1..]);
      assert s == [s[0]] + s[1..];
    }
  }

  lemma {:induction false} DistinctCardinality(s: seq<nat>)
    requires Distinct(s)
    ensures |Elements(s)| == |s|
  {
    if s == [] {
    } else {
      DistinctCardinality(s[1..]);
      ElementsMembers(s[1..]);
    }
  }

  lemma {:induction false} CardinalityMonotone(s: set<nat>, t: set<nat>)
    requires s <= t
    ensures |s| <= |t|
  {
    if s == {} {
    } else {
      var x :| x in s;
      CardinalityMonotone(s - {x}, t - {x});
    }
  }

  /** A duplicate-free list of n indices below n lists every one of them. */
  lemma PermutationIsOnto(order: seq<nat>, n: nat, d: nat)
    requires IsPermutation(order, n) && d < n
    ensures d in order
  {
    if d !in order {
      ElementsMembers(order);
      DistinctCardinality(order);
      CardinalityMonotone(Elements(order), Below(n) - {d});
    }
  }

  /** Where dimension d stands in the order. */
  ghost function Position(order: seq<nat>, n: nat, d: nat): (k: nat)
    requires IsPermutation(order, n) && d < n
    ensures k < n && order[k] == d
  {
    PermutationIsOnto(order, n, d);
    var k :| 0 <= k < n && order[k] == d;
    k
  }

  lemma PermutationMultiset(p: seq<nat>, q: seq<nat>, n: nat)
    requires IsPermutation(p, n) && IsPermutation(q, n)
    ensures multiset(p) == multiset(q)
  {
    forall d | d in p ensures d in q { PermutationIsOnto(q, n, d); }
    forall d | d in q ensures d in p { PermutationIsOnto(p, n, d); }
    SameElements(p, q);
  }

  // ---- dim_order_to_stride ----

  /** Sizes as factors of a stride: an empty dimension counts once. */
  function Factors(sizes: seq<I32>): (f: seq<int>)
    ensures |f| == |sizes|
    ensures forall d :: 0 <= d < |sizes| ==> f[d] == if sizes[d] == 0 then 1 else sizes[d]
  {
    seq(|sizes|, d requires 0 <= d < |sizes| => if sizes[d] == 0 then 1 else sizes[d])
  }

  /** The exact stride of the dimension standing just before position k. */
  ghost function Suffix(sizes: seq<I32>, order: seq<nat>, k: nat): int
    requires Indices(order, |sizes|) && k <= |order|
  {
    Fold(Product, Factors(sizes), order[k..])
  }

  /** The strides of (sizes, order) as the 32-bit computation yields them. */
  ghost function Strides(sizes: seq<I32>, order: seq<nat>): (st: seq<I32>)
    requires IsPermutation(order, |sizes|)
    ensures |st| == |sizes|
    ensures forall k :: 0 <= k < |order| ==> st[order[k]] == Wrap32(Suffix(sizes, order, k + 1))
  {
    var n := |sizes|;
    seq(n, d requires 0 <= d < n => Wrap32(Suffix(sizes, order, Position(order, n, d) + 1)))
  }

  lemma StrideAt(sizes: seq<I32>, order: seq<nat>, k: nat)
    requires IsPermutation(order, |sizes|) && k < |order|
    ensures Strides(sizes, order)[order[k]] == Wrap32(Suffix(sizes, order, k + 1))
  {
  }

  /** Strides are determined by their values along the order. */
  lemma StridesDetermined(sizes: seq<I32>, order: seq<nat>, st: seq<I32>)
    requires IsPermutation(order, |sizes|) && |st| == |sizes|
    requires forall k :: 0 <= k < |order| ==> st[order[k]] == Wrap32(Suffix(sizes, order, k + 1))
    ensures st == Strides(sizes, order)
  {
    forall d | 0 <= d < |sizes| ensures st[d] == Strides(sizes, order)[d] {
      assert order[Position(order, |sizes|, d)] == d;
    }
  }

  ghost predicate ValidOrder(order: seq<nat>, n: nat) {
    n == 0 || (n <= DIM_LIMIT && IsPermutation(order, n))
  }

  function Mask(d: nat): bv16
    requires d < DIM_LIMIT
  {
    (1 as bv16) << d
  }

  predicate Marked(seen: bv16, mask: bv16) {
    seen & mask != 0
  }

  lemma MasksAreDisjoint(d: nat, e: nat)
    requires d < DIM_LIMIT && e < DIM_LIMIT
    ensures Mask(d) != 0
    ensures d != e ==> Mask(d) & Mask(e) == 0
  {
  }

  lemma MarkItself(seen: bv16, m: bv16)
    ensures (seen | m) & m == m
  {
  }

  lemma MarkAnother(seen: bv16, m: bv16, k: bv16)
    requires m & k == 0
    ensures (seen | m) & k == seen & k
  {
  }

  lemma MarkMask(seen: bv16, m: bv16, k: bv16, same: bool)
    requires m != 0 && (same ==> m == k) && (!same ==> m & k == 0)
    ensures Marked(seen | m, k) <==> Marked(seen, k) || same
  {
    if same {
      MarkItself(seen, m);
    } else {
      MarkAnother(seen, m, k);
    }
  }

  lemma MarkDim(seen: bv16, d: nat, e: nat)
    requires d < DIM_LIMIT && e < DIM_LIMIT
    ensures Marked(seen | Mask(d), Mask(e)) <==> Marked(seen, Mask(e)) || e == d
  {
    MasksAreDisjoint(d, e);
    MarkMask(seen, Mask(d), Mask(e), d == e);
  }

  ghost predicate MarksExactly(seen: bv16, s: seq<nat>) {
    forall d: nat {:trigger Mask(d)} :: d < DIM_LIMIT ==> (Marked(seen, Mask(d)) <==> d in s)
  }

  lemma MarkNext(seen: bv16, s: seq<nat>, d: nat)
    requires MarksExactly(seen, s) && d < DIM_LIMIT
    ensures MarksExactly(seen | Mask(d), s + [d])
  {
    forall e: nat {:trigger Mask(e)} | e < DIM_LIMIT ensures Marked(seen | Mask(d), Mask(e)) <==> e in s + [d] {
      MarkDim(seen, d, e);
    }
  }

  lemma NothingMarked()
    ensures MarksExactly(0, [])
  {
    forall d: nat {:trigger Mask(d)} | d < DIM_LIMIT ensures !Marked(0, Mask(d)) {
      assert forall m: bv16 :: !Marked(0, m);
    }
  }

  lemma AppendIndex(s: seq<nat>, d: nat, n: nat)
    requires Indices(s, n) && Distinct(s) && d < n && d !in s
    ensures Indices(s + [d], n) && Distinct(s + [d])
  {
  }

  /** The bitmask scan accepts exactly the permutations of at most 16 dimensions. */
  method ValidateDimOrder(order: seq<nat>) returns (valid: bool)
    ensures valid <==> |order| <= DIM_LIMIT && IsPermutation(order, |order|)
  {
    var dims := |order|;
    if dims > DIM_LIMIT {
      return false;
    }
    var seen: bv16 := 0;
    NothingMarked();
    for i := 0 to dims
      invariant Indices(order[..i], dims) && Distinct(order[..i])
      invariant MarksExactly(seen, order[..i])
    {
      if order[i] >= dims {
        return false;
      }
      var mask := Mask(order[i]);
      if Marked(seen, mask) {
        return false;
      }
      MarkNext(seen, order[..i], order[i]);
      AppendIndex(order[..i], order[i], dims);
      assert order[..i] + [order[i]] == order[..i + 1];
      seen := seen | mask;
    }
    assert order[..dims] == order;
    return true;
  }

  lemma SuffixStep(sizes: seq<I32>, order: seq<nat>, k: nat)
    requires Indices(order, |sizes|) && k < |order|
    ensures Suffix(sizes, order, k) == Factors(sizes)[order[k]] * Suffix(sizes, order, k + 1)
  {
    assert order[k..][1..] == order[k + 1..];
  }

  /** One step outwards, in wrapping arithmetic. */
  lemma StrideStep(sizes: seq<I32>, order: seq<nat>, k: nat)
    requires Indices(order, |sizes|) && k < |order|
    ensures var inner, size := Wrap32(Suffix(sizes, order, k + 1)), sizes[order[k]];
      Wrap32(Suffix(sizes, order, k)) == if size == 0 then inner else Wrap32(inner * size)
  {
    SuffixStep(sizes, order, k);
    var s, f := Suffix(sizes, order, k + 1), Factors(sizes)[order[k]];
    WrapProduct(s, f);
    assert f * s == s * f;
  }

  /** The innermost stride is 1, and each outer one is the next stride times the next size, if that is not 0. */
  lemma StridesRecurrence(sizes: seq<I32>, order: seq<nat>, k: nat)
    requires IsPermutation(order, |sizes|) && k < |order|
    ensures var st := Strides(sizes, order);
      if k == |order| - 1 then st[order[k]] == 1
      else
        var next, size := st[order[k + 1]] as int, sizes[order[k + 1]] as int;
        st[order[k]] == if size == 0 then Wrap32(next) else Wrap32(next * size)
  {
    StrideAt(sizes, order, k);
    if k == |order| - 1 {
      assert Suffix(sizes, order, k + 1) == 1;
      SmallDoesNotWrap(1);
    } else {
      StrideAt(sizes, order, k + 1);
      StrideStep(sizes, order, k + 1);
      SmallDoesNotWrap(Strides(sizes, order)[order[k + 1]]);
    }
  }

  /** The strides of the dimensions from position k of the order on are in place. */
  ghost predicate StoredFrom(sizes: seq<I32>, order: seq<nat>, st: seq<I32>, k: nat)
    requires Indices(order, |sizes|)
  {
    |st| == |sizes| && forall j :: k <= j < |order| ==> st[order[j]] == Wrap32(Suffix(sizes, order, j + 1))
  }

  lemma InnermostStored(sizes: seq<I32>, order: seq<nat>, st: seq<I32>)
    requires IsPermutation(order, |sizes|) && order != [] && |st| == |sizes|
    ensures StoredFrom(sizes, order, st[order[|order| - 1] := 1], |order| - 1)
  {
    assert Suffix(sizes, order, |order|) == 1;
  }

  lemma OneMoreStored(sizes: seq<I32>, order: seq<nat>, st: seq<I32>, i: nat)
    requires IsPermutation(order, |sizes|) && i + 1 < |order| && StoredFrom(sizes, order, st, i + 1)
    ensures var inner, size := st[order[i + 1]], sizes[order[i + 1]];
      StoredFrom(sizes, order, st[order[i] := if size == 0 then inner else Wrap32(inner as int * size as int)], i)
  {
    StrideStep(sizes, order, i + 1);
  }

  method DimOrderToStrideNocheck(sizes: seq<I32>, order: seq<nat>, strides: array<I32>)
    requires |sizes| == strides.Length && IsPermutation(order, |sizes|)
    modifies strides
    ensures strides[..] == Strides(sizes, order)
  {
    var dims := |sizes|;
    if dims == 0 {
      return;
    }
    ghost var before := strides[..];
    strides[order[dims - 1]] := 1;
    InnermostStored(sizes, order, before);
    var i := dims - 2;
    while i >= 0
      invariant -1 <= i <= dims - 2
      invariant StoredFrom(sizes, order, strides[..], i + 1)
    {
      var nxt, cur := order[i + 1], order[i];
      ghost var st := strides[..];
      if sizes[nxt] == 0 {
        strides[cur] := strides[nxt];
      } else {
        strides[cur] := Wrap32(strides[nxt] as int * sizes[nxt] as int);
      }
      OneMoreStored(sizes, order, st, i);
      i := i - 1;
    }
    StridesDetermined(sizes, order, strides[..]);
  }

  method DimOrderToStride(sizes: seq<I32>, order: seq<nat>, strides: array<I32>) returns (ok: bool)
    requires |order| == |sizes| == strides.Length
    modifies strides
    ensures ok <==> ValidOrder(order, |sizes|)
    ensures ok ==> IsPermutation(order, |sizes|) && strides[..] == Strides(sizes, order)
    ensures !ok ==> strides[..] == old(strides[..])
  {
    if |sizes| == 0 {
      return true;
    }
    ok := ValidateDimOrder(order);
    if ok {
      DimOrderToStrideNocheck(sizes, order, strides);
    }
  }

  // ---- make_tensor_ptr ----

  /** The order before sorting; indices are stored in bytes. */
  function InitialOrder(n: nat): (s: seq<nat>)
    ensures |s| == n && forall k :: 0 <= k < n ==> s[k] == k % 256
  {
    seq(n, k => k % 256)
  }

  /** Everything an unstable sort by descending stride may return. */
  ghost predicate SortResult(strides: seq<I32>, sorted: seq<nat>) {
    && multiset(sorted) == multiset(InitialOrder(|strides|))
    && Indices(sorted, |strides|)
    && forall i, j :: 0 <= i < j < |sorted| ==> strides[sorted[i]] >= strides[sorted[j]]
  }

  ghost function EffectiveOrder(n: nat, dimOrder: seq<nat>, strides: seq<I32>, sorted: seq<nat>): seq<nat> {
    if dimOrder != [] then dimOrder else if strides == [] then InitialOrder(n) else sorted
  }

  /** When construction goes through for a given order. */
  ghost predicate Accepts(sizes: seq<I32>, order: seq<nat>, strides: seq<I32>) {
    && |order| == |sizes|
    && ValidOrder(order, |sizes|)
    && (strides != [] ==>
          && |strides| == |sizes|
          && forall d :: 0 <= d < |sizes| ==> strides[d] == Strides(sizes, order)[d] || sizes[d] == 1)
    && forall d :: 0 <= d < |sizes| ==> sizes[d] >= 0
  }

  lemma SortedLength(strides: seq<I32>, sorted: seq<nat>)
    requires SortResult(strides, sorted)
    ensures |sorted| == |strides|
  {
    assert |multiset(sorted)| == |sorted|;
    assert |multiset(InitialOrder(|strides|))| == |strides|;
  }

  /** The cached element count; the product may wrap around. */
  function CachedNumel(sizes: seq<I32>): I64 {
    Wrap64(PrefixProduct(sizes, |sizes|))
  }

  /** TensorImpl::new counts the elements and aborts on a negative size. */
  method ComputeNumel(sizes: seq<I32>) returns (r: Outcome<I64>)
    ensures r.Ok? <==> forall d :: 0 <= d < |sizes| ==> sizes[d] >= 0
    ensures r.Ok? ==> r.value == CachedNumel(sizes)
  {
    var numel: I64 := 1;
    for i := 0 to |sizes|
      invariant numel == Wrap64(PrefixProduct(sizes, i))
      invariant forall d :: 0 <= d < i ==> sizes[d] >= 0
    {
      if sizes[i] < 0 {
        return Abort;
      }
      Wrap64Product(PrefixProduct(sizes, i), sizes[i]);
      numel := Wrap64(numel as int * sizes[i] as int);
    }
    return Ok(numel);
  }

  /** `sorted` is what the library sort returns when it is called. */
  method MakeTensorPtr<D>(sizes: seq<I32>, data: D, dimOrder: seq<nat>, strides: seq<I32>, scalarType: ScalarType,
                          dynamism: Dynamism, deleter: Option<Deleter>, device: Device, sorted: seq<nat>)
    returns (r: Outcome<Tensor<D>>)
    requires dimOrder == [] && strides != [] && |strides| == |sizes| ==> SortResult(strides, sorted)
    ensures var order := EffectiveOrder(|sizes|, dimOrder, strides, sorted);
      && (r.Ok? <==> Accepts(sizes, order, strides))
      && (r.Ok? ==> r.value == Tensor(TensorMeta(sizes, order, Strides(sizes, order)), data, scalarType,
                                      CachedNumel(sizes), if |sizes| > 0 then dynamism else Static, device, deleter))
  {
    var dim := |sizes|;
    if dimOrder != [] && |dimOrder| != dim {
      return Abort;
    }
    if strides != [] && |strides| != dim {
      return Abort;
    }
    var order := dimOrder;
    if order == [] {
      for i := 0 to dim
        invariant order == InitialOrder(i)
      {
        order := order + [i % 256];
      }
      if strides != [] {
        SortedLength(strides, sorted);
        order := sorted;
      }
    }
    var computed := new I32[dim];
    var ok := DimOrderToStride(sizes, order, computed);
    if !ok {
      return Abort;
    }
    if strides != [] {
      for i := 0 to dim
        invariant forall d :: 0 <= d < i ==> strides[d] == computed[d] || sizes[d] == 1
      {
        if !(strides[i] == computed[i] || sizes[i] == 1) {
          return Abort;
        }
      }
    }
    var numel := ComputeNumel(sizes);
    if numel.Abort? {
      return Abort;
    }
    return Ok(Tensor(TensorMeta(sizes, order, computed[..]), data, scalarType, numel.value,
                     if dim > 0 then dynamism else Static, device, deleter));
  }
}
