/**
 What every data loader promises: bytes offset .. offset + size of its data, or an error when
 that range does not exist. The buffer loader is the simplest implementation.
 */
module DataLoader {
  import opened MachineInts

  datatype Error = Ok | InvalidState | InvalidArgument | AccessFailed | MemoryAllocationFailed | NotSupported

  datatype Result<+T> = Success(value: T) | Failure(error: Error)

  /** The range exists: no overflow and within the data. */
  predicate InRange(offset: nat, size: nat, total: nat) {
    offset + size < WORD && offset + size <= total
  }

  /** How a caller's buffer looks after the first n bytes of the range were written to it. */
  ghost predicate PartlyFilled(before: seq<Byte>, after: seq<Byte>, data: seq<Byte>, offset: nat, n: nat) {
    && |after| == |before| && n <= |before| && offset + n <= |data|
    && after == data[offset..offset + n] + before[n..]
  }

  class BufferDataLoader {
    const data: seq<Byte>

    constructor (data: seq<Byte>)
      ensures this.data == data
    {
      this.data := data;
    }

    /** A view of the wrapped buffer; nothing is copied. */
    method Load(offset: nat, size: nat) returns (r: Result<seq<Byte>>)
      requires offset < WORD && size < WORD
      ensures r ==
        if offset + size < 0x1_0000_0000_0000_0000 && offset + size <= |data|
        then Success(data[offset..offset + size]) else Failure(InvalidArgument)
    {
      if offset + size >= WORD || offset + size > |data| {
        return Failure(InvalidArgument);
      }
      assert data[offset..][..size] == data[offset..offset + size];
      return Success(data[offset..][..size]);
    }

    method LoadInto(offset: nat, size: nat, buffer: array?<Byte>) returns (err: Error)
      requires offset < WORD && size < WORD
      requires buffer != null ==> size <= buffer.Length
      modifies buffer
      ensures err.Ok? <==> buffer != null && offset + size < 0x1_0000_0000_0000_0000 && offset + size <= |data|
      ensures err.Ok? ==> forall i :: 0 <= i < buffer.Length ==>
        buffer[i] == if i < size then data[offset + i] else old(buffer[i])
      ensures !err.Ok? ==> err == InvalidArgument && (buffer != null ==> buffer[..] == old(buffer[..]))
    {
      if buffer == null {
        return InvalidArgument;
      }
      var result := Load(offset, size);
      if result.Failure? {
        return result.error;
      }
      forall i | 0 <= i < size {
        buffer[i] := result.value[i];
      }
      return Ok;
    }
  }
}
