/**
 Loading segments by mapping whole pages of the file.

 A loaded buffer remembers only its address and size; freeing it recomputes the pages to unmap
 from those two numbers. Over any sequence of loads, copies and frees the mapped pages are the
 disjoint union of the pages of the live buffers.
 */
module MmapDataLoader {
  import opened Arith
  import opened Bits
  import opened DataLoader
  import opened MachineInts
  import opened Wrappers

  datatype Range = Range(start: nat, size: nat)

  // ---- Page arithmetic ----

  ghost predicate ValidPageSize(p: nat) {
    IsPowerOf2(p) && p <= 0x4000_0000_0000_0000
  }

  lemma EndMaskRounds(offset: nat, size: nat, p: nat)
    requires ValidPageSize(p) && offset + size < ADDRESS_LIMIT
    ensures p - 1 < Pow2(WORD_BITS) && Not(p - 1, WORD_BITS) < Pow2(WORD_BITS)
    ensures Not(Not(p - 1, WORD_BITS), WORD_BITS) == p - 1
    ensures And(WrappingAdd(WrappingAdd(offset, size), p - 1), Not(p - 1, WORD_BITS)) == RoundUp(offset + size, p)
  {
    var end := WrappingAdd(offset, size);
    assert end == offset + size by { NoWrap(offset, size); }
    MaskIsRoundUp(end, p);
    NotNot(p - 1, WORD_BITS);
  }

  /** The end of the last page that a region touches, by wrapping addition and a mask. */
  method EndOfPages(offset: nat, size: nat, pageSize: nat) returns (end: nat)
    requires ValidPageSize(pageSize) && offset + size < ADDRESS_LIMIT
    ensures end == RoundUp(offset + size, pageSize)
  {
    EndMaskRounds(offset, size, pageSize);
    var pageMask := Not(pageSize - 1, WORD_BITS);
    end := And(WrappingAdd(WrappingAdd(offset, size), Not(pageMask, WORD_BITS)), pageMask);
  }

  /** The pages that cover a region. */
  method GetOverlappingPages(offset: nat, size: nat, pageSize: nat) returns (r: Range)
    requires ValidPageSize(pageSize) && offset + size < ADDRESS_LIMIT
    ensures r.start == RoundDown(offset, pageSize)
    ensures r.start + r.size == RoundUp(offset + size, pageSize)
  {
    MaskIsRoundDown(offset, pageSize);
    var start := And(offset, Not(pageSize - 1, WORD_BITS));
    var end := EndOfPages(offset, size, pageSize);
    return Range(start, end - start);
  }

  /** The numbers of `count` consecutive pages. */
  function PageSet(first: nat, count: nat): (s: set<nat>)
    ensures forall q :: q in s <==> first <= q < first + count
  {
    if count == 0 then {} else PageSet(first, count - 1) + {first + count - 1}
  }

  /** The pages touched by the bytes start .. start + size - 1, for an aligned start. */
  function PagesFrom(start: nat, size: nat, p: nat): set<nat>
    requires p > 0
  {
    PageSet(start / p, RoundUp(size, p) / p)
  }

  datatype Buffer = Buffer(data: nat, size: nat, offset: nat)

  /** The pages behind a buffer. */
  function BufferPages(b: Buffer, p: nat): set<nat>
    requires p > 0
  {
    PageSet(b.data / p, RoundUp(b.data + b.size, p) / p - b.data / p)
  }

  lemma RoundedQuotients(x: nat, p: nat)
    requires p > 0
    ensures RoundDown(x, p) == p * (x / p) && RoundDown(x, p) / p == x / p
    ensures RoundUp(x, p) == p * (RoundUp(x, p) / p)
  {
    DivMod(p, RoundDown(x, p), x / p, 0);
  }

  /**
   Load and free agree on the pages: mapping the clamped page range of [offset, offset + size)
   at an aligned base maps exactly the pages that freeing recomputes from the buffer's address.
   */
  lemma MappedIsUnmapped(offset: nat, size: nat, fileSize: nat, base: nat, p: nat)
    requires p > 0 && size > 0 && offset + size <= fileSize && base % p == 0
    ensures var start := RoundDown(offset, p);
      var mapSize := Min(RoundUp(offset + size, p) - start, fileSize - start);
      var data := base + (offset - start);
      && start <= fileSize && mapSize > 0
      && RoundDown(data, p) == base
      && RoundUp(data + size, p) == base + RoundUp(mapSize, p)
      && RoundUp(mapSize, p) == RoundUp(offset + size, p) - start
      && PagesFrom(base, mapSize, p) == BufferPages(Buffer(data, size, offset), p)
  {
    var start, end := RoundDown(offset, p), RoundUp(offset + size, p);
    var mapSize := Min(end - start, fileSize - start);
    var data := base + (offset - start);
    MultiplesAdd(end, start, p);
    RoundUnique(mapSize, p, end - start);
    RoundUnique(data, p, base);
    MultiplesAdd(base, end - start, p);
    RoundUnique(data + size, p, base + (end - start));
    RoundedQuotients(data, p);
    SplitQuotient(base, end - start, p);
  }

  lemma SplitQuotient(x: nat, y: nat, p: nat)
    requires p > 0 && x % p == 0
    ensures (x + y) / p == x / p + y / p
  {
    Distribute(p, x / p, y / p);
    DivMod(p, x + y, x / p + y / p, y % p);
  }

  // ---- The address space ----

  /** Which page of the file each mapped page shows. */
  class AddressSpace {
    const pageSize: nat
    var pages: map<nat, nat>

    constructor (pageSize: nat)
      ensures this.pageSize == pageSize && pages == map[]
    {
      this.pageSize := pageSize;
      pages := map[];
    }

    /** Maps file bytes from fileOffset on; `base` is the free place the system chose. */
    method Mmap(base: nat, len: nat, fileOffset: nat)
      requires pageSize > 0 && base % pageSize == 0 && fileOffset % pageSize == 0 && len > 0
      requires PagesFrom(base, len, pageSize) !! pages.Keys
      modifies this
      ensures pages == old(pages) + (map q | q in PagesFrom(base, len, pageSize) ::
        fileOffset / pageSize + (q - base / pageSize))
    {
      pages := pages + (map q | q in PagesFrom(base, len, pageSize) ::
        fileOffset / pageSize + (q - base / pageSize));
    }

    method Munmap(addr: nat, len: nat)
      requires pageSize > 0 && addr % pageSize == 0
      modifies this
      ensures pages == old(pages) - PagesFrom(addr, len, pageSize)
    {
      pages := pages - PagesFrom(addr, len, pageSize);
    }
  }

  datatype MlockConfig = NoMlock | UseMlock | UseMlockIgnoreErrors | UseMadvise

  // ---- Buffers and pages ----

  /** All pages of the buffer are mapped and show its range of a file of `total` bytes. */
  ghost predicate Mapped(b: Buffer, pages: map<nat, nat>, p: nat, total: nat) {
    && p > 0 && b.size > 0 && b.offset + b.size <= total
    && b.data + b.size < ADDRESS_LIMIT
    && b.data % p == b.offset % p
    && forall q :: q in BufferPages(b, p) ==> q in pages && pages[q] == b.offset / p + (q - b.data / p)
  }

  /** Every live buffer is mapped, on pages of its own. */
  ghost predicate Owned(live: set<Buffer>, pages: map<nat, nat>, p: nat, total: nat) {
    && p > 0
    && (forall b :: b in live ==> Mapped(b, pages, p, total))
    && forall b, c :: b in live && c in live && b != c ==> BufferPages(b, p) !! BufferPages(c, p)
  }

  /** Nothing is mapped except for the live buffers. */
  ghost predicate NoLeak(live: set<Buffer>, pages: map<nat, nat>, p: nat)
    requires p > 0
  {
    forall q :: q in pages ==> exists b :: b in live && q in BufferPages(b, p)
  }

  /** The page of a byte of a buffer is one of the buffer's pages. */
  lemma InsidePages(b: Buffer, a: nat, p: nat)
    requires p > 0 && b.data <= a < b.data + b.size
    ensures a / p in BufferPages(b, p)
  {
    RoundDownMonotone(b.data, a, p);
    RoundedQuotients(b.data, p);
    RoundedQuotients(a, p);
    RoundedQuotients(b.data + b.size, p);
    MultipleGap(p, a / p, b.data / p);
    MultipleGap(p, RoundUp(b.data + b.size, p) / p, a / p);
  }

  /** They are no others: each of the buffer's pages holds one of its bytes. */
  lemma BufferPagesAreTouched(b: Buffer, p: nat, q: nat)
    requires p > 0 && b.size > 0
    ensures q in BufferPages(b, p) <==> exists a :: b.data <= a < b.data + b.size && a / p == q
  {
    if q in BufferPages(b, p) {
      var a := ByteOnPage(b.data, b.size, p, q);
    }
    forall a | b.data <= a < b.data + b.size
      ensures a / p in BufferPages(b, p)
    {
      InsidePages(b, a, p);
    }
  }

  /** Some byte of the region on page q: the first of the region or the first of the page. */
  lemma ByteOnPage(data: nat, size: nat, p: nat, q: nat) returns (a: nat)
    requires p > 0 && size > 0 && data / p <= q < RoundUp(data + size, p) / p
    ensures data <= a < data + size && a / p == q
  {
    if q == data / p {
      a := data;
    } else {
      a := q * p;
      StartOfLaterPage(data, size, p, q);
    }
  }

  lemma StartOfLaterPage(data: nat, size: nat, p: nat, q: nat)
    requires p > 0 && data / p < q < RoundUp(data + size, p) / p
    ensures data <= q * p < data + size && (q * p) / p == q
  {
    var end := RoundUp(data + size, p);
    RoundedQuotients(data + size, p);
    DivMod(p, q * p, q, 0);
    assert data == p * (data / p) + data % p;
    MultipleGap(p, data / p, q);
    MultipleGap(p, q, end / p);
  }

  /** Likewise for a region that starts on a page. */
  lemma PagesFromAreTouched(start: nat, size: nat, p: nat, q: nat)
    requires p > 0 && start % p == 0
    ensures q in PagesFrom(start, size, p) <==> exists a :: start <= a < start + size && a / p == q
  {
    if size > 0 {
      var b := Buffer(start, size, 0);
      MultiplesAdd(start, RoundUp(size, p), p);
      RoundUnique(size, p, RoundUp(size, p));
      RoundUnique(start + size, p, start + RoundUp(size, p));
      SplitQuotient(start, RoundUp(size, p), p);
      BufferPagesAreTouched(b, p, q);
    }
  }

  lemma SameRemainder(data: nat, offset: nat, i: nat, p: nat)
    requires p > 0 && data % p == offset % p
    ensures data / p <= (data + i) / p
    ensures (offset / p + ((data + i) / p - data / p)) * p + (data + i) % p == offset + i
  {
    var r := data % p;
    QuotientShift(data, i, p);
    Recombine(offset, p, offset / p, r, i, (r + i) / p, (r + i) % p);
    if (r + i) / p < 0 {
      MultipleGap(p, (r + i) / p, 0);
    }
  }

  lemma Recombine(x: int, p: int, q: int, r: int, i: int, u: int, v: int)
    requires x == p * q + r && r + i == p * u + v
    ensures (q + u) * p + v == x + i
  {
    Distribute(p, q, u);
  }

  /** A mapped buffer shows its range of the file, byte by byte. */
  lemma MappedShowsFile(b: Buffer, pages: map<nat, nat>, p: nat, total: nat, i: nat)
    requires Mapped(b, pages, p, total) && i < b.size
    ensures (b.data + i) / p in pages
    ensures pages[(b.data + i) / p] * p + (b.data + i) % p == b.offset + i
  {
    InsidePages(b, b.data + i, p);
    SameRemainder(b.data, b.offset, i, p);
  }

  lemma AddBuffer(live: set<Buffer>, pages: map<nat, nat>, pages': map<nat, nat>, p: nat, total: nat, b: Buffer)
    requires Owned(live, pages, p, total) && Mapped(b, pages', p, total)
    requires Extends(pages, pages', b, p)
    ensures b !in live && Owned(live + {b}, pages', p, total)
    ensures NoLeak(live, pages, p) ==> NoLeak(live + {b}, pages', p)
  {
    InsidePages(b, b.data, p);
  }

  lemma RemoveBuffer(live: set<Buffer>, pages: map<nat, nat>, p: nat, total: nat, b: Buffer)
    requires Owned(live, pages, p, total) && b in live
    ensures Owned(live - {b}, pages - BufferPages(b, p), p, total)
    ensures NoLeak(live, pages, p) ==> NoLeak(live - {b}, pages - BufferPages(b, p), p)
  {
    forall c | c in live - {b} ensures Mapped(c, pages - BufferPages(b, p), p, total) {
      assert BufferPages(c, p) !! BufferPages(b, p);
    }
  }

  /** `pages'` adds the pages of b, all of them new, to `pages`. */
  ghost predicate Extends(pages: map<nat, nat>, pages': map<nat, nat>, b: Buffer, p: nat)
    requires p > 0
  {
    && BufferPages(b, p) !! pages.Keys && pages'.Keys == pages.Keys + BufferPages(b, p)
    && forall q :: q in pages ==> pages'[q] == pages[q]
  }

  lemma PartialUnmapOwned(live: set<Buffer>, pages: map<nat, nat>, pages': map<nat, nat>, p: nat, total: nat,
                          b: Buffer, unmapped: set<nat>)
    requires Owned(live, pages, p, total) && Extends(pages, pages', b, p) && unmapped !! pages.Keys
    ensures Owned(live, pages' - unmapped, p, total)
  {
    forall c | c in live ensures Mapped(c, pages' - unmapped, p, total) {
      assert Mapped(c, pages, p, total);
    }
  }

  /** Unmapping only part of a fresh mapping leaks the rest. */
  lemma PartialUnmapLeaks(live: set<Buffer>, pages: map<nat, nat>, pages': map<nat, nat>, p: nat, total: nat,
                          b: Buffer, unmapped: set<nat>)
    requires Owned(live, pages, p, total) && Extends(pages, pages', b, p) && unmapped !! pages.Keys
    requires NoLeak(live, pages, p)
    ensures NoLeak(live, pages' - unmapped, p) <==> BufferPages(b, p) <= unmapped
  {
    var rest := pages' - unmapped;
    if BufferPages(b, p) <= unmapped {
      forall q | q in rest ensures exists c :: c in live && q in BufferPages(c, p) {
        assert q in pages;
      }
    } else {
      var q :| q in BufferPages(b, p) && q !in unmapped;
      assert q in rest;
      forall c | c in live ensures q !in BufferPages(c, p) {
        assert Mapped(c, pages, p, total);
      }
    }
  }

  /** Removing the pages that were added gives back the pages before. */
  lemma AddedThenRemoved(pages: map<nat, nat>, pages': map<nat, nat>, b: Buffer, p: nat)
    requires p > 0 && Extends(pages, pages', b, p)
    ensures pages' - BufferPages(b, p) == pages
  {
  }

  lemma SubsetOfPages(first: nat, m: nat, n: nat)
    ensures PageSet(first, m) <= PageSet(first, n) <==> m <= n
  {
    if n < m {
      assert first + n in PageSet(first, m);
    }
  }

  class MmapDataLoader {
    const file: seq<Byte>
    const fd: int
    const mlockConfig: MlockConfig
    const os: AddressSpace
    var live: set<Buffer>

    constructor (file: seq<Byte>, fd: int, mlockConfig: MlockConfig, os: AddressSpace)
      requires |file| < ADDRESS_LIMIT && ValidPageSize(os.pageSize) && os.pages == map[]
      ensures Valid() && Exact() && live == {}
      ensures this.file == file && this.os == os && this.fd == fd && this.mlockConfig == mlockConfig
    {
      this.file, this.fd, this.mlockConfig, this.os := file, fd, mlockConfig, os;
      live := {};
    }

    ghost predicate Valid()
      reads this, os
    {
      && |file| < ADDRESS_LIMIT && ValidPageSize(os.pageSize)
      && Owned(live, os.pages, os.pageSize, |file|)
    }

    ghost predicate Exact()
      requires os.pageSize > 0
      reads this, os
    {
      NoLeak(live, os.pages, os.pageSize)
    }

    /** The file byte shown at an address, if any. */
    function ByteAt(a: nat): Option<Byte>
      requires os.pageSize > 0
      reads this, os
    {
      var p := os.pageSize;
      if a / p in os.pages && 0 <= os.pages[a / p] * p + a % p < |file|
      then Some(file[os.pages[a / p] * p + a % p]) else None
    }

    function ValidateInput(offset: nat, size: nat): Error {
      if fd < 0 then InvalidState
      else if !InRange(offset, size, |file|) then InvalidArgument
      else Ok
    }

    /** What the system promises about a successful mmap (None is MAP_FAILED): aligned, unused, not too high. */
    ghost predicate FreePlace(base: Option<nat>, offset: nat, size: nat)
      requires os.pageSize > 0
      reads this, os
    {
      var p := os.pageSize;
      base.Some? && InRange(offset, size, |file|) && size > 0 ==>
        var len := RoundUp(offset + size, p) - RoundDown(offset, p);
        && len >= 0
        && base.value % p == 0
        && base.value + len < ADDRESS_LIMIT
        && PageSet(base.value / p, len / p) !! os.pages.Keys
    }

    /** Maps the pages of a range, clamped to the end of the file. */
    method MapRange(offset: nat, size: nat, base: nat) returns (mapSize: nat, b: Buffer)
      requires Valid() && FreePlace(Some(base), offset, size) && size > 0 && InRange(offset, size, |file|)
      modifies os
      ensures b.size == size && b.offset == offset && size <= mapSize
      ensures base == RoundDown(b.data, os.pageSize) && base % os.pageSize == 0
      ensures Mapped(b, os.pages, os.pageSize, |file|)
      ensures Extends(old(os.pages), os.pages, b, os.pageSize)
      ensures BufferPages(b, os.pageSize) == PagesFrom(base, mapSize, os.pageSize)
      ensures RoundUp(mapSize, os.pageSize) == RoundUp(offset + size, os.pageSize) - RoundDown(offset, os.pageSize)
    {
      var p := os.pageSize;
      var range := GetOverlappingPages(offset, size, p);
      mapSize := range.size;
      if range.start + mapSize > |file| {
        mapSize := |file| - range.start;
      }
      b := Buffer(base + (offset - range.start), size, offset);
      MappedIsUnmapped(offset, size, |file|, base, p);
      PlacedRemainder(base, offset, p);
      os.Mmap(base, mapSize, range.start);
    }

    /**
     Loads a range. `base` is where the system places the pages and `mlockFails` whether locking
     them fails. Everything but a failing lock leaves exactly the live buffers mapped. A failing
     lock unmaps `size` bytes instead of the mapped size, which leaks pages exactly when the
     range straddles more pages than its size needs.
     */
    method Load(offset: nat, size: nat, base: Option<nat>, mlockFails: bool)
      returns (err: Error, b: Option<Buffer>)
      requires Valid() && FreePlace(base, offset, size)
      modifies this, os
      ensures Valid()
      ensures err ==
        if fd < 0 then InvalidState
        else if offset + size >= WORD || offset + size > |file| then InvalidArgument
        else if size == 0 then Ok
        else if base.None? then AccessFailed
        else if mlockConfig.UseMlock? && mlockFails then NotSupported
        else Ok
      ensures b.Some? <==> err.Ok? && size > 0
      ensures b.Some? ==>
        && b.value.size == size && b.value.offset == offset
        && b.value !in old(live) && live == old(live) + {b.value}
        && Extends(old(os.pages), os.pages, b.value, os.pageSize)
      ensures b.None? ==> live == old(live)
      ensures b.None? && !err.NotSupported? ==> os.pages == old(os.pages)
      ensures old(Exact()) ==>
        (Exact() <==> (err.NotSupported? ==>
          RoundUp(size, os.pageSize) >= RoundUp(offset + size, os.pageSize) - RoundDown(offset, os.pageSize)))
    {
      err := ValidateInput(offset, size);
      if !err.Ok? {
        return err, None;
      }
      if size == 0 {
        return Ok, None;
      }
      if base.None? {
        return AccessFailed, None;
      }
      ghost var before := os.pages;
      var mapSize, buffer := MapRange(offset, size, base.value);
      if mlockConfig.UseMlock? && mlockFails {
        ghost var mapped := os.pages;
        FewerPages(base.value, size, mapSize, buffer, os.pageSize);
        os.Munmap(base.value, size);
        PartialUnmapOwned(live, before, mapped, os.pageSize, |file|, buffer, PagesFrom(base.value, size, os.pageSize));
        if old(Exact()) {
          PartialUnmapLeaks(live, before, mapped, os.pageSize, |file|, buffer,
                            PagesFrom(base.value, size, os.pageSize));
        }
        return NotSupported, None;
      }
      AddBuffer(live, before, os.pages, os.pageSize, |file|, buffer);
      live := live + {buffer};
      return Ok, Some(buffer);
    }

    /** Releases a loaded buffer: the pages to unmap are recomputed from its address and size. */
    method Free(b: Buffer)
      requires Valid() && b in live
      modifies this, os
      ensures Valid()
      ensures live == old(live) - {b}
      ensures os.pages == old(os.pages) - BufferPages(b, os.pageSize)
      ensures old(Exact()) ==> Exact()
    {
      RemoveBuffer(live, os.pages, os.pageSize, |file|, b);
      var range := GetOverlappingPages(b.data, b.size, os.pageSize);
      RecomputedPages(b, range, os.pageSize);
      os.Munmap(range.start, range.size);
      live := live - {b};
    }

    /** A live buffer reads as the slice of the file it was loaded for, at any later time. */
    lemma LiveBufferShowsSlice(b: Buffer, i: nat)
      requires Valid() && b in live && i < b.size
      ensures b.offset + b.size <= |file| && ByteAt(b.data + i) == Some(file[b.offset + i])
    {
      MappedShowsFile(b, os.pages, os.pageSize, |file|, i);
    }

    /** Freeing what was loaded restores the address space, whatever was clamped in between. */
    method LoadThenFree(offset: nat, size: nat, base: Option<nat>)
      requires Valid() && FreePlace(base, offset, size)
      modifies this, os
      ensures Valid() && live == old(live) && os.pages == old(os.pages)
    {
      ghost var before := os.pages;
      var err, b := Load(offset, size, base, false);
      if b.Some? {
        AddedThenRemoved(before, os.pages, b.value, os.pageSize);
        Free(b.value);
      }
    }

    /**
     Copies a range into the caller's buffer through a temporary mapping, which is gone again
     when the call returns.
     */
    method LoadInto(offset: nat, size: nat, buffer: array?<Byte>, base: Option<nat>) returns (err: Error)
      requires Valid() && FreePlace(base, offset, size)
      requires buffer != null ==> size <= buffer.Length
      modifies os, buffer
      ensures Valid() && os.pages == old(os.pages)
      ensures err ==
        if buffer == null then InvalidArgument
        else if fd < 0 then InvalidState
        else if offset + size >= WORD || offset + size > |file| then InvalidArgument
        else if size > 0 && base.None? then AccessFailed
        else Ok
      ensures err.Ok? ==> forall i :: 0 <= i < buffer.Length ==>
        buffer[i] == if i < size then file[offset + i] else old(buffer[i])
      ensures !err.Ok? && buffer != null ==> buffer[..] == old(buffer[..])
    {
      if buffer == null {
        return InvalidArgument;
      }
      err := ValidateInput(offset, size);
      if !err.Ok? || size == 0 {
        return err;
      }
      if base.None? {
        return AccessFailed;
      }
      ghost var before := os.pages;
      var mapSize, b := MapRange(offset, size, base.value);
      CopyOut(b, buffer);
      os.Munmap(base.value, mapSize);
      assert os.pages == before;
      return Ok;
    }

    /** Copies the bytes of a mapped buffer. */
    method CopyOut(b: Buffer, buffer: array<Byte>)
      requires Mapped(b, os.pages, os.pageSize, |file|) && b.size <= buffer.Length
      modifies buffer
      ensures forall i :: 0 <= i < buffer.Length ==>
        buffer[i] == if i < b.size then file[b.offset + i] else old(buffer[i])
    {
      for i := 0 to b.size
        invariant forall k :: 0 <= k < buffer.Length ==>
                    buffer[k] == if k < i then file[b.offset + k] else old(buffer[k])
      {
        MappedShowsFile(b, os.pages, os.pageSize, |file|, i);
        buffer[i] := ByteAt(b.data + i).value;
      }
    }
  }

  /** A failing lock of a range on more pages than its size needs leaves pages mapped that no buffer owns. */
  method FailingLockLeaks(loader: MmapDataLoader, offset: nat, size: nat, base: nat) returns (err: Error)
    requires loader.Valid() && loader.Exact() && loader.FreePlace(Some(base), offset, size)
    requires loader.ValidateInput(offset, size).Ok? && size > 0 && loader.mlockConfig.UseMlock?
    requires RoundUp(size, loader.os.pageSize)
           < RoundUp(offset + size, loader.os.pageSize) - RoundDown(offset, loader.os.pageSize)
    modifies loader, loader.os
    ensures err.NotSupported? && loader.Valid() && loader.live == old(loader.live) && !loader.Exact()
  {
    var b;
    err, b := loader.Load(offset, size, Some(base), true);
  }

  /** Already the first load of a fresh loader leaks when it straddles pages and its lock fails. */
  method FirstLoadLeaks(file: seq<Byte>, p: nat, offset: nat, size: nat) returns (loader: MmapDataLoader)
    requires |file| < ADDRESS_LIMIT && ValidPageSize(p)
    requires 0 < size && offset + size <= |file| && RoundUp(offset + size, p) < ADDRESS_LIMIT
    requires RoundUp(size, p) < RoundUp(offset + size, p) - RoundDown(offset, p)
    ensures fresh(loader) && loader.Valid() && loader.live == {} && !loader.Exact()
  {
    var os := new AddressSpace(p);
    loader := new MmapDataLoader(file, 3, UseMlock, os);
    var err := FailingLockLeaks(loader, offset, size, 0);
  }

  /** A range of at most a page that runs over the end of the first page is such a range. */
  lemma StraddlingRange(p: nat, offset: nat, size: nat)
    requires 0 < size <= p && offset < p < offset + size
    ensures RoundUp(size, p) == p && RoundUp(offset + size, p) == 2 * p && RoundDown(offset, p) == 0
  {
    DivMod(p, 0, 0, 0);
    DivMod(p, p, 1, 0);
    DivMod(p, 2 * p, 2, 0);
    RoundUnique(offset, p, 0);
    RoundUnique(size, p, p);
    RoundUnique(offset + size, p, 2 * p);
  }

  /** Two bytes across the page boundary of a two-page file, in a fresh loader. */
  method LoadAcrossPages(file: seq<Byte>, p: nat) returns (loader: MmapDataLoader)
    requires ValidPageSize(p) && p >= 2 && |file| == 2 * p < ADDRESS_LIMIT
    ensures fresh(loader) && loader.Valid() && loader.live == {} && !loader.Exact()
  {
    var offset, size := p - 1, 2;
    StraddlingRange(p, offset, size);
    loader := FirstLoadLeaks(file, p, offset, size);
  }

  lemma PageOf4096(p: nat)
    requires p == 4096
    ensures ValidPageSize(p)
  {
    assert Pow2(12) == 4096;
  }

  /** The leak is real: with pages of 4096 bytes it takes two bytes at offset 4095. */
  method LeakExample(file: seq<Byte>) returns (loader: MmapDataLoader)
    requires |file| == 8192
    ensures fresh(loader) && loader.Valid() && loader.live == {} && !loader.Exact()
  {
    PageOf4096(4096);
    loader := LoadAcrossPages(file, 4096);
  }

  /** The pages of `size` bytes from the base are among the mapped ones; when they are all of them. */
  lemma FewerPages(base: nat, size: nat, mapSize: nat, b: Buffer, p: nat)
    requires p > 0 && size <= mapSize && BufferPages(b, p) == PagesFrom(base, mapSize, p)
    ensures PagesFrom(base, size, p) <= BufferPages(b, p)
    ensures BufferPages(b, p) <= PagesFrom(base, size, p) <==> RoundUp(size, p) >= RoundUp(mapSize, p)
  {
    RoundUpMonotone(size, mapSize, p);
    QuotientOrder(RoundUp(size, p), RoundUp(mapSize, p), p);
    QuotientOrder(RoundUp(mapSize, p), RoundUp(size, p), p);
    SubsetOfPages(base / p, RoundUp(mapSize, p) / p, RoundUp(size, p) / p);
    SubsetOfPages(base / p, RoundUp(size, p) / p, RoundUp(mapSize, p) / p);
  }

  lemma QuotientOrder(x: nat, y: nat, p: nat)
    requires p > 0 && x % p == 0 && y % p == 0
    ensures x <= y <==> x / p <= y / p
  {
    MultipleGap(p, x / p, y / p);
    MultipleGap(p, y / p, x / p);
  }

  lemma RecomputedPages(b: Buffer, range: Range, p: nat)
    requires p > 0 && range.start == RoundDown(b.data, p)
    requires range.start + range.size == RoundUp(b.data + b.size, p)
    ensures range.start % p == 0 && PagesFrom(range.start, range.size, p) == BufferPages(b, p)
  {
    var start, end := range.start, range.start + range.size;
    MultiplesAdd(end, start, p);
    RoundUnique(range.size, p, range.size);
    RoundedQuotients(b.data, p);
    SplitQuotient(start, range.size, p);
  }

  /** A range keeps its position within the page when its pages are placed at an aligned base. */
  lemma PlacedRemainder(base: nat, offset: nat, p: nat)
    requires p > 0 && base % p == 0
    ensures (base + (offset - RoundDown(offset, p))) % p == offset % p
    ensures (base + (offset - RoundDown(offset, p))) / p == base / p
    ensures RoundDown(offset, p) / p == offset / p
  {
    RoundedQuotients(offset, p);
    DivMod(p, base + offset % p, base / p, offset % p);
  }
}
