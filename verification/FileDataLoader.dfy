/**
 Loading segments by positioned reads. The operating system may deliver any part of a
 request, interrupt it, fail, or report the end of the file at any time.
 */
module FileDataLoader {
  import opened Arith
  import opened Bits
  import opened DataLoader
  import opened MachineInts
  import opened Wrappers

  const I32_MAX: nat := 0x7fff_ffff

  /** What the operating system answers to one read: at most n bytes, EINTR, or another error. */
  datatype Reply = Bytes(n: nat) | Interrupted | Fails

  /** No read fails or pretends that the file has ended. */
  ghost predicate Cooperative(replies: nat -> Reply) {
    forall k: nat :: !replies(k).Fails? && replies(k) != Bytes(0)
  }

  /** The power-of-two test on alignments. */
  method IsPowerOfTwo(value: nat) returns (r: bool)
    requires value < WORD
    ensures r <==> value > 0 && IsPowerOf2(value)
  {
    WordIsPow2();
    if value == 0 {
      return false;
    }
    LowestBitTest(value, WORD_BITS);
    return And(value, Not(value - 1, WORD_BITS)) == value;
  }

  /** The number of bytes a read at `offset` delivers. */
  function Delivered(file: seq<Byte>, offset: nat, count: nat, n: nat): nat {
    Min(Min(n, count), if offset <= |file| then |file| - offset else 0)
  }

  /** pread into buffer[pos..]; -1 stands for an error, told apart by `interrupted`. */
  method Pread(file: seq<Byte>, offset: nat, count: nat, reply: Reply, buffer: array<Byte>, pos: nat)
    returns (nread: int, interrupted: bool)
    requires pos + count <= buffer.Length
    modifies buffer
    ensures reply.Bytes? ==> nread == Delivered(file, offset, count, reply.n)
    ensures !reply.Bytes? ==> nread == -1 && (interrupted <==> reply.Interrupted?)
    ensures forall i :: 0 <= i < buffer.Length ==>
      buffer[i] == if nread > 0 && pos <= i < pos + nread then file[offset + (i - pos)] else old(buffer[i])
  {
    match reply {
      case Interrupted => return -1, true;
      case Fails => return -1, false;
      case Bytes(n) =>
        nread, interrupted := Delivered(file, offset, count, n), false;
        forall i | pos <= i < pos + nread {
          buffer[i] := file[offset + (i - pos)];
        }
    }
  }

  /** Where a block lies and the layout it was requested with. */
  datatype Layout = Layout(address: nat, size: nat, alignment: nat)

  /** Blocks that are allocated and not yet freed. */
  class Heap {
    ghost var live: map<array<Byte>, Layout>

    /** Size and alignment must be those the block was allocated with. */
    method Free(block: array<Byte>, size: nat, alignment: nat)
      requires block in live && live[block].size == size && live[block].alignment == alignment
      modifies this
      ensures live == old(live) - {block}
    {
      live := live - {block};
    }

    /** `address` is where the system puts the block, 0 when it has no memory. */
    method Alloc(size: nat, alignment: nat, address: nat) returns (block: array?<Byte>)
      requires alignment > 0 && address % alignment == 0
      modifies this
      ensures block != null <==> address != 0
      ensures block != null ==>
        fresh(block) && block.Length == size && live == old(live)[block := Layout(address, size, alignment)]
      ensures block == null ==> live == old(live)
    {
      if address == 0 {
        return null;
      }
      var b := new Byte[size](_ => 0);
      live := live[b := Layout(address, size, alignment)];
      return b;
    }
  }

  /** A loaded segment; the loader's alignment is kept for freeing it. An empty range has no block. */
  datatype FreeableBuffer = FreeableBuffer(block: array?<Byte>, size: nat, alignment: nat)

  /** The callback that releases a segment. */
  method FreeSegment(b: FreeableBuffer, heap: Heap)
    requires b.block != null ==>
      b.block in heap.live && heap.live[b.block].size == b.size && heap.live[b.block].alignment == b.alignment
    modifies heap
    ensures heap.live == if b.block == null then old(heap.live) else old(heap.live) - {b.block}
  {
    if b.block != null {
      heap.Free(b.block, b.size, b.alignment);
    }
  }

  /**
   Opens a file. The arguments after the alignment are what the system answers: the descriptor
   (negative on failure), the file size if it can be found, and whether the name can be copied.
   */
  method Open(nameIsNull: bool, alignment: nat, fd: int, fileSize: Option<nat>, nameCopied: bool)
    returns (err: Error, loader: FileDataLoader?)
    requires alignment < WORD
    ensures err ==
      if alignment == 0 || !IsPowerOf2(alignment) || nameIsNull then InvalidArgument
      else if fd < 0 || fileSize.None? then AccessFailed
      else if !nameCopied then MemoryAllocationFailed
      else Ok
    ensures loader != null <==> err.Ok?
    ensures loader != null ==>
      fresh(loader) && loader.fd == fd && loader.fileSize == fileSize.value && loader.alignment == alignment
  {
    loader := null;
    var valid := IsPowerOfTwo(alignment);
    if !valid || nameIsNull {
      return InvalidArgument, null;
    }
    if fd < 0 || fileSize.None? {
      return AccessFailed, null;
    }
    if !nameCopied {
      return MemoryAllocationFailed, null;
    }
    loader := new FileDataLoader(fileSize.value, fd, alignment);
    return Ok, loader;
  }

  class FileDataLoader {
    const fileSize: nat
    const fd: int
    const alignment: nat

    constructor (fileSize: nat, fd: int, alignment: nat)
      ensures this.fileSize == fileSize && this.fd == fd && this.alignment == alignment
    {
      this.fileSize, this.fd, this.alignment := fileSize, fd, alignment;
    }

    /** A range that an open loader accepts. */
    ghost predicate Readable(offset: nat, size: nat) {
      fd >= 0 && InRange(offset, size, fileSize)
    }

    /**
     Reads until `size` bytes have arrived. `file` is what the file holds during the call (it
     may have shrunk since it was opened) and replies(k) is the answer to the k-th read; from
     read number `calm` on there are no more interruptions.

     The buffer always holds a prefix of the requested range followed by its old content; the
     call succeeds exactly when that prefix is complete.
     */
    method LoadInto(file: seq<Byte>, offset: nat, size: nat, buffer: array?<Byte>,
                    replies: nat -> Reply, ghost calm: nat)
      returns (err: Error, ghost got: nat)
      requires offset < WORD && size < WORD
      requires buffer != null ==> size <= buffer.Length
      requires forall k: nat :: k >= calm ==> !replies(k).Interrupted?
      modifies buffer
      ensures fd < 0 ==> err.InvalidState?
      ensures fd >= 0 && (offset + size >= 0x1_0000_0000_0000_0000 || offset + size > fileSize || buffer == null) ==>
        err.InvalidArgument?
      ensures Readable(offset, size) && buffer != null ==> err.Ok? || err.AccessFailed?
      ensures buffer != null ==>
        got <= size && (got > 0 ==> PartlyFilled(old(buffer[..]), buffer[..], file, offset, got))
        && (got == 0 ==> buffer[..] == old(buffer[..]))
      ensures err.Ok? <==> Readable(offset, size) && buffer != null && got == size
      ensures err.Ok? && size > 0 ==> offset + size <= |file| && forall i :: 0 <= i < buffer.Length ==>
        buffer[i] == if i < size then file[offset + i] else old(buffer[i])
      ensures fd >= 0 && offset + size < 0x1_0000_0000_0000_0000 && offset + size <= fileSize ==>
        buffer != null && offset + size <= |file| && Cooperative(replies) ==> err.Ok?
    {
      got := 0;
      if fd < 0 {
        return InvalidState, 0;
      }
      if offset + size >= WORD || offset + size > fileSize {
        return InvalidArgument, 0;
      }
      if buffer == null {
        return InvalidArgument, 0;
      }
      var needed: nat, pos: nat, at: nat, k: nat := size, 0, offset, 0;
      while needed > 0
        invariant pos + needed == size && at == offset + pos
        invariant pos > 0 ==> at <= |file|
        invariant forall i :: 0 <= i < pos ==> buffer[i] == file[offset + i]
        invariant forall i :: pos <= i < buffer.Length ==> buffer[i] == old(buffer[i])
        decreases needed, if k < calm then calm - k else 0
      {
        var chunk := Min(needed, I32_MAX);
        var nread, interrupted := Pread(file, at, chunk, replies(k), buffer, pos);
        k := k + 1;
        if nread < 0 && interrupted {
          continue;
        }
        if nread <= 0 {
          return AccessFailed, pos;
        }
        needed := needed - nread;
        pos := pos + nread;
        at := at + nread;
      }
      return Ok, size;
    }

    /**
     Loads into a fresh block. A block survives the call exactly when the call succeeds with a
     non-empty range; it is then aligned, holds that range of the file, and can be freed with the
     size and alignment that the result carries.
     */
    method Load(file: seq<Byte>, offset: nat, size: nat, replies: nat -> Reply, ghost calm: nat,
                heap: Heap, address: nat)
      returns (err: Error, r: FreeableBuffer)
      requires offset < WORD && size < WORD
      requires alignment > 0 && address % alignment == 0
      requires forall k: nat :: k >= calm ==> !replies(k).Interrupted?
      modifies heap
      ensures r.block != null <==> err.Ok? && size > 0
      ensures r.block != null ==>
        && fresh(r.block) && r.size == size && r.alignment == alignment
        && heap.live == old(heap.live)[r.block := Layout(address, size, alignment)]
        && offset + size <= |file| && r.block[..] == file[offset..offset + size]
      ensures r.block == null ==> heap.live == old(heap.live)
      ensures fd < 0 ==> err.InvalidState?
      ensures fd >= 0 && (offset + size >= 0x1_0000_0000_0000_0000 || offset + size > fileSize) ==> err.InvalidArgument?
      ensures Readable(offset, size) ==>
        err.Ok? || (size > 0 && err == if address != 0 then AccessFailed else MemoryAllocationFailed)
      ensures Readable(offset, size) && size > 0 && address == 0 ==> !err.Ok?
      ensures fd >= 0 && offset + size < 0x1_0000_0000_0000_0000 && offset + size <= fileSize ==>
        address != 0 && offset + size <= |file| && Cooperative(replies) ==> err.Ok?
    {
      r := FreeableBuffer(null, 0, 0);
      if fd < 0 {
        return InvalidState, r;
      }
      if offset + size >= WORD || offset + size > fileSize {
        return InvalidArgument, r;
      }
      if size == 0 {
        return Ok, r;
      }
      var segment := heap.Alloc(size, alignment, address);
      if segment == null {
        return MemoryAllocationFailed, r;
      }
      ghost var got;
      err, got := LoadInto(file, offset, size, segment, replies, calm);
      if !err.Ok? {
        heap.Free(segment, size, alignment);
        return err, r;
      }
      return Ok, FreeableBuffer(segment, size, alignment);
    }
  }
}
