/**
 An allocator on top of malloc and free that supports any power-of-two alignment by
 over-allocating, and releases everything on reset.
 */
module MallocMemoryAllocator {
  import opened Arith
  import opened Bits
  import opened MachineInts
  import opened Wrappers

  /** The alignment malloc guarantees. */
  const MALLOC_ALIGNMENT: nat := 16
  const USIZE_MAX: nat := WORD - 1

  /** Intervals of addresses without a common byte, neither inside the other. */
  ghost predicate Apart(a: nat, aSize: nat, b: nat, bSize: nat) {
    a + aSize <= b || b + bSize <= a
  }

  /** The blocks malloc has handed out, by base address. */
  class CHeap {
    var blocks: map<nat, nat>

    constructor ()
      ensures blocks == map[]
    {
      blocks := map[];
    }

    ghost predicate Disjoint()
      reads this
    {
      forall a, b :: a in blocks && b in blocks && a != b ==> Apart(a, blocks[a], b, blocks[b])
    }

    /** What malloc promises about a block it returns. */
    ghost predicate MayReturn(base: nat, size: nat)
      reads this
    {
      && base > 0 && base % MALLOC_ALIGNMENT == 0 && base + size < ADDRESS_LIMIT
      && base !in blocks
      && forall b :: b in blocks ==> Apart(base, size, b, blocks[b])
    }

    method Malloc(base: nat, size: nat)
      requires MayReturn(base, size) && Disjoint()
      modifies this
      ensures blocks == old(blocks)[base := size] && Disjoint()
    {
      blocks := blocks[base := size];
    }

    /** Freeing an address that is not an allocated block would be an error. */
    method Free(base: nat)
      requires base in blocks && Disjoint()
      modifies this
      ensures blocks == old(blocks) - {base} && Disjoint()
    {
      blocks := blocks - {base};
    }
  }

  method IsPowerOfTwo(value: nat) returns (r: bool)
    requires value < WORD
    ensures r <==> value > 0 && IsPowerOf2(value)
  {
    if value != 0 {
      ClearLowestBitTest(value);
    }
    return value != 0 && And(value, value - 1) == 0;
  }

  /** The size to request, or None when the over-allocation would overflow. */
  function AlignedSize(size: nat, alignment: nat): (r: Option<nat>)
    requires size < WORD && 0 < alignment < WORD
  {
    if alignment > MALLOC_ALIGNMENT then
      if alignment - 1 >= USIZE_MAX - size then None else Some(size + (alignment - 1))
    else Some(size)
  }

  /** The request, or none at all when the over-allocation would reach the largest word. */
  lemma RequestedSize(size: nat, alignment: nat)
    requires size < WORD && 0 < alignment < WORD
    ensures AlignedSize(size, alignment) ==
      if alignment <= 16 then Some(size)
      else if size + alignment - 1 < 0xffff_ffff_ffff_ffff then Some(size + alignment - 1)
      else None
  {
  }

  /** The next multiple of the alignment, by wrapping addition and a mask. */
  method AlignPointer(address: nat, alignment: nat) returns (p: nat)
    requires 0 < alignment < WORD && IsPowerOf2(alignment) && address + (alignment - 1) < WORD
    ensures p == RoundUp(address, alignment)
  {
    MaskIsRoundUp(address, alignment);
    p := And(WrappingAdd(address, alignment - 1), Not(alignment - 1, WORD_BITS));
  }

  lemma {:induction false} SmallPowerDivides(k: nat, j: nat, x: nat)
    requires k <= j && x % Pow2(j) == 0
    ensures x % Pow2(k) == 0
  {
    if k == j {
    } else {
      var p, q := Pow2(j - 1), x / Pow2(j);
      assert x == Pow2(j) * q + 0;
      assert Pow2(j) * q == p * (2 * q);
      DivMod(p, x, 2 * q, 0);
      SmallPowerDivides(k, j - 1, x);
    }
  }

  /** Small alignments are met by malloc itself. */
  lemma SmallAlignment(address: nat, alignment: nat)
    requires 0 < alignment <= MALLOC_ALIGNMENT && IsPowerOf2(alignment) && address % MALLOC_ALIGNMENT == 0
    ensures RoundUp(address, alignment) == address
  {
    var k: nat :| alignment == Pow2(k);
    assert Pow2(4) == MALLOC_ALIGNMENT && Pow2(5) == 32;
    if k > 4 {
      Pow2Monotone(5, k);
    }
    SmallPowerDivides(k, 4, address);
    RoundUnique(address, alignment, address);
  }

  /** The aligned address lies in the block that was requested for it. */
  lemma AlignedInBlock(base: nat, size: nat, alignment: nat)
    requires size < WORD && 0 < alignment < WORD && IsPowerOf2(alignment)
    requires AlignedSize(size, alignment).Some? && base % MALLOC_ALIGNMENT == 0
    requires base + AlignedSize(size, alignment).value < ADDRESS_LIMIT
    ensures base + (alignment - 1) < WORD
    ensures var p := RoundUp(base, alignment);
      p % alignment == 0 && base <= p && p + size <= base + AlignedSize(size, alignment).value
  {
    if alignment <= MALLOC_ALIGNMENT {
      SmallAlignment(base, alignment);
    }
  }

  /** A region handed to a caller and the block it was cut from. */
  datatype Region = Region(ptr: nat, size: nat, block: nat)

  class MallocMemoryAllocator {
    const heap: CHeap
    var memPtrs: seq<nat>
    ghost var regions: seq<Region>

    constructor (heap: CHeap)
      requires heap.Disjoint()
      ensures Valid() && this.heap == heap && memPtrs == [] && regions == []
    {
      this.heap := heap;
      memPtrs := [];
      regions := [];
    }

    /** The i-th live region lies in the i-th block, which is allocated. */
    ghost predicate Valid()
      reads this, heap
    {
      && heap.Disjoint()
      && |regions| == |memPtrs|
      && (forall i, j :: 0 <= i < j < |memPtrs| ==> memPtrs[i] != memPtrs[j])
      && forall i :: 0 <= i < |memPtrs| ==>
           && memPtrs[i] in heap.blocks
           && regions[i].block == memPtrs[i] <= regions[i].ptr
           && regions[i].ptr + regions[i].size <= memPtrs[i] + heap.blocks[memPtrs[i]]
    }

    /** Live regions never overlap. */
    lemma RegionsAreApart(i: nat, j: nat)
      requires Valid() && i < |regions| && j < |regions| && i != j
      ensures regions[i].ptr + regions[i].size <= regions[j].ptr || regions[j].ptr + regions[j].size <= regions[i].ptr
    {
      assert Apart(memPtrs[i], heap.blocks[memPtrs[i]], memPtrs[j], heap.blocks[memPtrs[j]]);
    }

    /**
     `reply` is malloc's answer. The result is 0 (null) for a bad alignment, on overflow or when
     malloc fails; otherwise it is aligned, has `size` bytes inside its own block, and every
     earlier region stays live.
     */
    method Allocate(size: nat, alignment: nat, reply: Option<nat>) returns (ptr: nat)
      requires Valid() && size < WORD && alignment < WORD
      requires reply.Some? && alignment > 0 && AlignedSize(size, alignment).Some? ==>
        heap.MayReturn(reply.value, AlignedSize(size, alignment).value)
      modifies this, heap
      ensures Valid()
      ensures ptr != 0 <==>
        && alignment > 0 && IsPowerOf2(alignment) && reply.Some?
        && (alignment <= 16 || size + (alignment - 1) < 0xffff_ffff_ffff_ffff)
      ensures ptr != 0 ==>
        && ptr % alignment == 0
        && regions == old(regions) + [Region(ptr, size, reply.value)]
        && memPtrs == old(memPtrs) + [reply.value]
        && heap.blocks == old(heap.blocks)[reply.value := if alignment <= 16 then size else size + (alignment - 1)]
      ensures ptr == 0 ==>
        regions == old(regions) && memPtrs == old(memPtrs) && heap.blocks == old(heap.blocks)
    {
      var valid := IsPowerOfTwo(alignment);
      if !valid {
        return 0;
      }
      var adjusted := AlignedSize(size, alignment);
      if adjusted.None? || reply.None? {
        return 0;
      }
      AlignedInBlock(reply.value, size, alignment);
      heap.Malloc(reply.value, adjusted.value);
      memPtrs := memPtrs + [reply.value];
      ptr := AlignPointer(memPtrs[|memPtrs| - 1], alignment);
      regions := regions + [Region(ptr, size, reply.value)];
    }

    /** Frees every block of this allocator once, and no other block. */
    method Reset()
      requires Valid()
      modifies this, heap
      ensures Valid() && memPtrs == [] && regions == []
      ensures heap.blocks == old(heap.blocks) - (set a | a in old(memPtrs))
    {
      for i := 0 to |memPtrs|
        invariant memPtrs == old(memPtrs) && heap.Disjoint()
        invariant heap.blocks == old(heap.blocks) - (set a | a in memPtrs[..i])
        invariant forall k :: i <= k < |memPtrs| ==> memPtrs[k] in heap.blocks
      {
        assert memPtrs[..i + 1] == memPtrs[..i] + [memPtrs[i]];
        heap.Free(memPtrs[i]);
      }
      assert memPtrs[..|memPtrs|] == memPtrs;
      memPtrs := [];
      regions := [];
    }
  }
}
