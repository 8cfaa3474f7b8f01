/**
 A tensor whose shape may change in place, together with its cached element count and strides.
 */
module TensorImpl {
  import opened ElementCount
  import opened Folds
  import opened LayoutRecovery
  import opened MachineInts
  import opened TensorLayout

  datatype Error = Ok | NotSupported | InvalidArgument

  /** A tensor without strides and dim order has no layout to keep up to date. */
  datatype Layout = NoLayout | Layout(dimOrder: seq<nat>)

  class TensorImpl {
    const layout: Layout
    const dynamism: Dynamism
    const numelBound: nat
    var sizes: seq<I32>
    var strides: seq<I32>
    var numel: I64
    var data: nat

    /** Counts the elements once; the count may have wrapped around. */
    constructor (sizes: seq<I32>, layout: Layout, strides: seq<I32>, dynamism: Dynamism, data: nat)
      requires NonNegative(sizes)
      requires layout.Layout? ==> |layout.dimOrder| == |strides| == |sizes|
      ensures Valid() && this.sizes == sizes && this.layout == layout && this.strides == strides
      ensures this.dynamism == dynamism && this.data == data
      ensures numel == CachedNumel(sizes) && numelBound == CachedNumel(sizes) as int % WORD
    {
      this.sizes, this.layout, this.strides, this.dynamism, this.data := sizes, layout, strides, dynamism, data;
      numel := CachedNumel(sizes);
      numelBound := CachedNumel(sizes) as int % WORD;
    }

    predicate Valid()
      reads this
    {
      layout.Layout? ==> |layout.dimOrder| == |strides| == |sizes|
    }

    /** Whether a shape of the same rank only has to be the one the tensor already has. */
    predicate Fixed()
      reads this
    {
      |sizes| == 0 || dynamism.Static?
    }

    /** When the tensor takes on a new shape. */
    ghost predicate Takes(newSizes: seq<I32>)
      reads this
    {
      && |newSizes| == |sizes|
      && if Fixed() then newSizes == sizes
         else
           && NonNegative(newSizes) && PrefixesFit(newSizes, |newSizes|) && Numel(newSizes) <= numelBound
           && (layout.Layout? ==> ValidOrder(layout.dimOrder, |newSizes|))
    }

    /** The element count that goes with a shape it takes: a fixed shape keeps the one cached at first. */
    ghost function NumelFor(newSizes: seq<I32>): int
      reads this
    {
      if Fixed() then numel else Numel(newSizes)
    }

    /** Recomputes the strides for a new shape. */
    method Restride(newSizes: seq<I32>) returns (ok: bool)
      requires Valid() && |newSizes| == |sizes| && layout.Layout?
      modifies this`strides
      ensures ok <==> ValidOrder(layout.dimOrder, |newSizes|)
      ensures ok ==> IsPermutation(layout.dimOrder, |newSizes|) && strides == Strides(newSizes, layout.dimOrder)
      ensures !ok ==> strides == old(strides)
    {
      var computed := new I32[|newSizes|];
      ok := DimOrderToStride(newSizes, layout.dimOrder, computed);
      if ok {
        strides := computed[..];
      }
    }

    /**
     Resizes in place. It succeeds exactly for the shapes the tensor takes, and then has that
     shape with its element count and strides; otherwise nothing changes.
     */
    method InternalResizeContiguous(newSizes: seq<I32>) returns (err: Error)
      requires Valid()
      modifies this`sizes, this`strides, this`numel
      ensures Valid()
      ensures err.Ok? <==> old(Takes(newSizes))
      ensures err.Ok? <==>
        && |newSizes| == old(|sizes|)
        && if old(|sizes|) == 0 || dynamism.Static? then newSizes == old(sizes)
           else
             && NonNegative(newSizes) && PrefixesFit(newSizes, |newSizes|)
             && PrefixProduct(newSizes, |newSizes|) <= numelBound
             && (layout.Layout? ==> ValidOrder(layout.dimOrder, |newSizes|))
      ensures |newSizes| != old(|sizes|) || (dynamism.Static? && newSizes != old(sizes)) ==> err.NotSupported?
      ensures err.InvalidArgument? ==>
        !NonNegative(newSizes) || !PrefixesFit(newSizes, |newSizes|)
        || (layout.Layout? && !ValidOrder(layout.dimOrder, |newSizes|))
      ensures err.NotSupported? && |newSizes| == old(|sizes|) && !dynamism.Static? ==>
        PrefixProduct(newSizes, |newSizes|) > numelBound
      ensures err.Ok? ==> sizes == newSizes && numel == old(NumelFor(newSizes))
      ensures err.Ok? && !old(Fixed()) && layout.Layout? ==>
        IsPermutation(layout.dimOrder, |newSizes|) && strides == Strides(newSizes, layout.dimOrder)
      ensures err.Ok? && (old(Fixed()) || layout.NoLayout?) ==> strides == old(strides)
      ensures !err.Ok? ==> sizes == old(sizes) && strides == old(strides) && numel == old(numel)
    {
      if |newSizes| != |sizes| {
        return NotSupported;
      }
      if |sizes| == 0 {
        return Error.Ok;
      }
      if dynamism.Static? {
        return if newSizes == sizes then Error.Ok else NotSupported;
      }
      var count := SafeNumel(newSizes);
      if count.Abort? {
        return InvalidArgument;
      }
      if count.value > numelBound {
        return NotSupported;
      }
      if layout.Layout? {
        var ok := Restride(newSizes);
        if !ok {
          return InvalidArgument;
        }
      }
      assert PrefixProduct(newSizes, |newSizes|) < I64_LIMIT;
      numel := count.value;
      sizes := newSizes;
      return Error.Ok;
    }
  }
}
