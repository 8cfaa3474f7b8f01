/**
 Owning tensors and their clones: element counts with overflow checks, construction from an
 owned buffer of bytes, and clone_tensor_ptr.
 */
module TensorClone {
  import opened Arith
  import opened ElementCount
  import opened FlatRows
  import opened Folds
  import opened MachineInts
  import opened TensorLayout
  import opened LayoutRecovery
  import opened DenseAddressing
  import opened Wrappers

  /** A tensor over bytes; a null data pointer is None. */
  type ByteTensor = Tensor<Option<seq<Byte>>>

  lemma NumelIsExtent(sizes: seq<I32>)
    requires Positive(sizes)
    ensures Numel(sizes) == Extent(sizes)
  {
    PrefixProductIsFold(sizes, |sizes|);
    assert Factors(sizes) == sizes;
  }

  ghost predicate FitsMemory(sizes: seq<I32>, elementBytes: nat) {
    PrefixesFit(sizes, |sizes|) && Numel(sizes) * elementBytes < WORD
  }

  /** No partial product reaches 2^63 and the byte count does not reach 2^64. */
  lemma FitsMemoryMeans(sizes: seq<I32>, elementBytes: nat)
    ensures FitsMemory(sizes, elementBytes) ==>
      forall k :: 0 <= k <= |sizes| ==> PrefixProduct(sizes, k) < 0x8000_0000_0000_0000
    ensures FitsMemory(sizes, elementBytes) ==> PrefixProduct(sizes, |sizes|) * elementBytes < 0x1_0000_0000_0000_0000
    ensures !FitsMemory(sizes, elementBytes) ==>
      || PrefixProduct(sizes, |sizes|) * elementBytes >= 0x1_0000_0000_0000_0000
      || exists k :: 0 <= k <= |sizes| && PrefixProduct(sizes, k) >= 0x8000_0000_0000_0000
  {
    if !PrefixesFit(sizes, |sizes|) {
      var k :| 0 <= k <= |sizes| && PrefixProduct(sizes, k) >= I64_LIMIT;
      assert PrefixProduct(sizes, k) >= 0x8000_0000_0000_0000;
    }
  }

  /** The byte count of a tensor, when neither product overflows. */
  method CheckedBytes(sizes: seq<I32>, elementBytes: nat) returns (r: Outcome<int>)
    ensures r.Ok? <==> NonNegative(sizes) && FitsMemory(sizes, elementBytes)
    ensures r.Ok? ==> r.value == Numel(sizes) * elementBytes
  {
    r := SafeNumel(sizes);
    if r.Ok? {
      var nbytes := r.value * elementBytes;
      assert nbytes == Numel(sizes) * elementBytes;
      r := if nbytes >= WORD then Abort else Ok(nbytes);
    }
  }

  /** A tensor over an owned buffer, which must have exactly the bytes that sizes and type demand. */
  method MakeTensorPtrFromBytes(sizes: seq<I32>, data: seq<Byte>, dimOrder: seq<nat>, strides: seq<I32>,
                                scalarType: ScalarType, dynamism: Dynamism, sorted: seq<nat>)
    returns (r: Outcome<ByteTensor>)
    requires dimOrder == [] && strides != [] && |strides| == |sizes| ==> SortResult(strides, sorted)
    ensures var order := EffectiveOrder(|sizes|, dimOrder, strides, sorted);
      && (r.Ok? <==>
            && Accepts(sizes, order, strides) && FitsMemory(sizes, scalarType.bytes)
            && |data| == Numel(sizes) * scalarType.bytes)
      && (r.Ok? ==> r.value == Tensor(TensorMeta(sizes, order, Strides(sizes, order)), Some(data), scalarType,
                                      CachedNumel(sizes), if |sizes| > 0 then dynamism else Static, Cpu,
                                      Some(OwnsBuffer)))
  {
    var nbytes := CheckedBytes(sizes, scalarType.bytes);
    if nbytes.Abort? || |data| != nbytes.value {
      return Abort;
    }
    r := MakeTensorPtr(sizes, Some(data), dimOrder, strides, scalarType, dynamism, Some(OwnsBuffer), Cpu, sorted);
  }

  // ---- Cloning ----

  /** What holds of every tensor: metadata of one rank, and a buffer, if any, with all its elements. */
  ghost predicate ValidTensor(t: ByteTensor) {
    && |t.meta.dimOrder| == |t.meta.strides| == |t.meta.sizes| && NonNegative(t.meta.sizes)
    && t.numel == CachedNumel(t.meta.sizes)
    && t.scalarType.bytes > 0
    && (t.data.Some? ==> |t.data.value| == Numel(t.meta.sizes) * t.scalarType.bytes < I64_LIMIT)
  }

  /** A conversion of single elements from one representation to another. */
  type Cast = seq<Byte> -> seq<Byte>

  /** Each of the n elements of dst, of w' bytes, is the conversion of the element of src, of w bytes. */
  ghost predicate IsCast(cast: Cast, w: nat, w': nat, n: nat, src: seq<Byte>, dst: seq<Byte>) {
    && |dst| == RowStart(w', n)
    && forall i: nat {:trigger Row(dst, w', i)} :: i < n ==> Row(dst, w', i) == cast(Row(src, w, i))
  }

  /** Converts the elements one after the other. */
  method CastElements(cast: Cast, w: nat, w': nat, n: nat, src: seq<Byte>) returns (dst: seq<Byte>)
    requires forall e :: |cast(e)| == w'
    ensures IsCast(cast, w, w', n, src, dst)
  {
    dst := seq(RowStart(w', n), _ => 0);
    for i := 0 to n
      invariant |dst| == RowStart(w', n)
      invariant forall k: nat {:trigger Row(dst, w', k)} :: k < i ==> Row(dst, w', k) == cast(Row(src, w, k))
    {
      ghost var before := dst;
      var element := cast(Row(src, w, i));
      dst := Put(dst, w', i, element);
      forall k: nat {:trigger Row(dst, w', k)} | k < i + 1
        ensures Row(dst, w', k) == if k == i then element else Row(before, w', k)
      {
        RowAfterPut(before, w', n, i, element, k);
      }
    }
  }

  /** When a tensor can be cloned into the target type. */
  ghost predicate Cloneable(src: ByteTensor, target: ScalarType, canCast: bool) {
    && src.device.Cpu?
    && Accepts(src.meta.sizes, src.meta.dimOrder, src.meta.strides)
    && (src.data.Some? ==>
          (src.scalarType == target || canCast) && FitsMemory(src.meta.sizes, target.bytes))
  }

  /** The buffer of a clone: the same bytes, or the converted elements. */
  ghost predicate ClonedData(src: ByteTensor, dst: ByteTensor, cast: Cast) {
    && (dst.data.Some? <==> src.data.Some?)
    && (src.data.Some? ==>
          if src.scalarType == dst.scalarType then dst.data == src.data
          else src.numel >= 0 && IsCast(cast, src.scalarType.bytes, dst.scalarType.bytes, src.numel,
                                        src.data.value, dst.data.value))
  }

  /** The number of elements fits a word when they have a buffer. */
  lemma BufferedNumel(t: ByteTensor)
    requires ValidTensor(t) && t.data.Some?
    ensures 0 <= t.numel as int == Numel(t.meta.sizes)
  {
    NumelNonNegative(t.meta.sizes, |t.meta.sizes|);
    AtMostProduct(t.scalarType.bytes, Numel(t.meta.sizes));
  }

  /**
   Cloning with a conversion. Strides that do not belong to the dim order of the source abort;
   otherwise the clone has the computed strides and the converted elements in memory order.
   */
  method CloneTensorPtr(src: ByteTensor, target: ScalarType, canCast: bool, cast: Cast)
    returns (r: Outcome<ByteTensor>)
    requires ValidTensor(src) && target.bytes > 0 && forall e :: |cast(e)| == target.bytes
    ensures r.Ok? <==> Cloneable(src, target, canCast)
    ensures !src.device.Cpu? ==> r.Abort?
    ensures src.data.Some? && src.scalarType != target && !canCast ==> r.Abort?
    ensures r.Ok? ==>
      && r.value.meta == TensorMeta(src.meta.sizes, src.meta.dimOrder, Strides(src.meta.sizes, src.meta.dimOrder))
      && r.value.scalarType == target && r.value.numel == src.numel && r.value.device.Cpu?
      && r.value.dynamism == (if |src.meta.sizes| > 0 then src.dynamism else Static)
      && r.value.deleter == (if src.data.Some? then Some(OwnsBuffer) else None)
      && ClonedData(src, r.value, cast)
  {
    if !src.device.Cpu? {
      return Abort;
    }
    var meta := src.meta;
    if src.data.None? {
      r := MakeTensorPtr(meta.sizes, None, meta.dimOrder, meta.strides, target, src.dynamism, None, Cpu, []);
      return;
    }
    BufferedNumel(src);
    if src.scalarType == target {
      r := MakeTensorPtrFromBytes(meta.sizes, src.data.value, meta.dimOrder, meta.strides, target, src.dynamism, []);
      return;
    }
    if !canCast {
      return Abort;
    }
    var numel: nat := src.numel;
    if numel * target.bytes >= WORD {
      return Abort;
    }
    var data := CastElements(cast, src.scalarType.bytes, target.bytes, numel, src.data.value);
    RowStartIsProduct(target.bytes, numel);
    r := MakeTensorPtrFromBytes(meta.sizes, data, meta.dimOrder, meta.strides, target, src.dynamism, []);
  }

  // ---- Clones agree with their source ----

  ghost predicate InBounds(t: ByteTensor, index: seq<int>) {
    && ValidIndex(t.meta.sizes, index) && |t.meta.strides| == |t.meta.sizes|
    && 0 <= Offset(t.meta.strides, index) < t.numel
  }

  /** The bytes of the element at an index. */
  ghost function ElementAt(t: ByteTensor, index: seq<int>): seq<Byte>
    requires InBounds(t, index) && t.data.Some?
  {
    Row(t.data.value, t.scalarType.bytes, Offset(t.meta.strides, index))
  }

  /** dst is a clone of src. */
  ghost predicate IsClone(src: ByteTensor, dst: ByteTensor, cast: Cast) {
    && ValidTensor(src) && src.data.Some? && Accepts(src.meta.sizes, src.meta.dimOrder, src.meta.strides)
    && dst.meta == TensorMeta(src.meta.sizes, src.meta.dimOrder, Strides(src.meta.sizes, src.meta.dimOrder))
    && dst.numel == src.numel && ClonedData(src, dst, cast)
    && (src.scalarType == dst.scalarType ==> forall e :: cast(e) == e)
  }

  /** Source and clone find an element at the same offset, although their strides may differ. */
  lemma CloneKeepsOffsets(src: ByteTensor, dst: ByteTensor, cast: Cast, index: seq<int>)
    requires IsClone(src, dst, cast) && ValidIndex(src.meta.sizes, index)
    ensures Offset(dst.meta.strides, index) == Offset(src.meta.strides, index)
  {
    if src.meta.sizes != [] {
      AcceptedStridesKeepMeaning(src.meta.sizes, src.meta.dimOrder, src.meta.strides, index);
    }
  }

  /**
   The clone equals the converted source at every index whose offset lies in the buffer. In a
   dense layout these are all indices.
   */
  lemma CloneAgreesAtEveryIndex(src: ByteTensor, dst: ByteTensor, cast: Cast, index: seq<int>)
    requires IsClone(src, dst, cast) && ValidIndex(src.meta.sizes, index)
    ensures Dense(src.meta) ==> InBounds(src, index)
    ensures InBounds(src, index) <==> InBounds(dst, index)
    ensures InBounds(src, index) ==> ElementAt(dst, index) == cast(ElementAt(src, index))
  {
    CloneKeepsOffsets(src, dst, cast, index);
    BufferedNumel(src);
    if Dense(src.meta) {
      NumelIsExtent(src.meta.sizes);
      OffsetInRange(src.meta, index);
    }
    if InBounds(src, index) && src.scalarType != dst.scalarType {
      assert Row(dst.data.value, dst.scalarType.bytes, Offset(dst.meta.strides, index))
          == cast(Row(src.data.value, src.scalarType.bytes, Offset(src.meta.strides, index)));
    }
  }

  /** A dense layout is accepted again. */
  lemma DenseIsAccepted(meta: TensorMeta)
    requires Dense(meta) && |meta.sizes| <= DIM_LIMIT
    ensures Accepts(meta.sizes, meta.dimOrder, meta.strides)
  {
    forall k | 0 <= k < |meta.dimOrder| && meta.sizes[meta.dimOrder[k]] != 1
      ensures Strides(meta.sizes, meta.dimOrder)[meta.dimOrder[k]] == meta.strides[meta.dimOrder[k]]
    {
      StrideIsExact(meta.sizes, meta.dimOrder, k);
    }
    forall d: nat | d < |meta.sizes| && meta.sizes[d] != 1
      ensures Strides(meta.sizes, meta.dimOrder)[d] == meta.strides[d]
    {
      assert meta.dimOrder[Position(meta.dimOrder, |meta.sizes|, d)] == d;
    }
  }

  /**
   At an index both tensors have the same offset, and from there times the element width on, the
   bytes of dst are those of src after conversion.
   */
  ghost predicate ReadsConverted(src: ByteTensor, dst: ByteTensor, cast: Cast, index: seq<int>) {
    && src.data.Some? && dst.data.Some? && |src.meta.strides| == |dst.meta.strides| == |index|
    && var at, w, w' := Offset(src.meta.strides, index), src.scalarType.bytes, dst.scalarType.bytes;
    && Offset(dst.meta.strides, index) == at
    && 0 <= at * w <= at * w + w <= |src.data.value| && 0 <= at * w' <= at * w' + w' <= |dst.data.value|
    && dst.data.value[at * w'..at * w' + w'] == cast(src.data.value[at * w..at * w + w])
  }

  /** The data holds every element, and elements of `width` bytes would fit memory as well. */
  ghost predicate FullyBacked(t: ByteTensor, width: nat) {
    && t.data.Some? && t.numel == PrefixProduct(t.meta.sizes, |t.meta.sizes|)
    && |t.data.value| == t.numel as int * t.scalarType.bytes < I64_LIMIT
    && t.numel as int * width < WORD
  }

  /**
   Cloning a dense tensor whose clone fits memory cannot fail, and the clone finds at every index
   the converted bytes of the source's element.
   */
  method CloneDense(src: ByteTensor, target: ScalarType, canCast: bool, cast: Cast, ghost index: seq<int>)
    returns (dst: ByteTensor)
    requires Dense(src.meta) && |src.meta.sizes| <= 16 && src.device.Cpu? && FullyBacked(src, target.bytes)
    requires src.scalarType.bytes > 0 && target.bytes > 0
    requires forall e :: |cast(e)| == target.bytes
    requires if src.scalarType == target then forall e :: cast(e) == e else canCast
    requires ValidIndex(src.meta.sizes, index)
    ensures dst.meta.sizes == src.meta.sizes && dst.scalarType == target && dst.data.Some?
    ensures ReadsConverted(src, dst, cast, index)
  {
    DenseIsAccepted(src.meta);
    DenseFits(src, target);
    var r := CloneTensorPtr(src, target, canCast, cast);
    dst := r.value;
    assert IsClone(src, dst, cast);
    ClonedBytes(src, dst, cast, index);
  }

  lemma ClonedBytes(src: ByteTensor, dst: ByteTensor, cast: Cast, index: seq<int>)
    requires IsClone(src, dst, cast) && Dense(src.meta) && ValidIndex(src.meta.sizes, index)
    requires FullyBacked(src, dst.scalarType.bytes)
    ensures ReadsConverted(src, dst, cast, index)
  {
    CloneAgreesAtEveryIndex(src, dst, cast, index);
    CloneKeepsOffsets(src, dst, cast, index);
    if src.scalarType != dst.scalarType {
      RowStartIsProduct(dst.scalarType.bytes, src.numel);
    }
    ElementBytes(src, index);
    ElementBytes(dst, index);
  }

  lemma DenseFits(src: ByteTensor, target: ScalarType)
    requires Dense(src.meta) && src.scalarType.bytes > 0 && FullyBacked(src, target.bytes)
    ensures ValidTensor(src) && FitsMemory(src.meta.sizes, target.bytes)
  {
    forall k | 0 <= k <= |src.meta.sizes| ensures PrefixProduct(src.meta.sizes, k) < I64_LIMIT {
      PrefixesGrow(src.meta.sizes, k, |src.meta.sizes|);
    }
  }

  /** The bytes of an element lie at its offset times the width. */
  lemma ElementBytes(t: ByteTensor, index: seq<int>)
    requires InBounds(t, index) && t.data.Some? && |t.data.value| == t.numel as int * t.scalarType.bytes
    ensures var at, w := Offset(t.meta.strides, index), t.scalarType.bytes;
      0 <= at * w <= at * w + w <= |t.data.value| && ElementAt(t, index) == t.data.value[at * w..at * w + w]
  {
    var at: nat, w := Offset(t.meta.strides, index), t.scalarType.bytes;
    RowFits(t.numel, w, at);
    RowStartIsProduct(w, at);
    RowStartIsProduct(w, t.numel);
  }
}
