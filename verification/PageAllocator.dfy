/**
  The bitmap as the kernel keeps it: a byte array changed in place by the boot-time parser
  and by the early page allocator.  Every operation is proved against the page-map functions.
 */
module PageAllocator {
  import opened Machine
  import opened Bits
  import opened PageMap
  import opened BootMemory
  import opened Allocation
  import Align

  lemma FlatSplit(data: seq<Byte>, n: nat)
    requires n + 1 == |data|
    ensures Flat(data) == Extended(Flat(data[..n]), data[n])
  {
    var whole, split := Flat(data), Extended(Flat(data[..n]), data[n]);
    forall k | 0 <= k < |whole|
      ensures whole[k] == split[k]
    {
      if k >= CHAR_BIT * n {
        assert split[k] == Flat([data[n]])[k - CHAR_BIT * n];
      }
    }
  }

  lemma PrefixWrite(was: seq<Byte>, now: seq<Byte>, n: nat, idx: nat, b: nat, flag: bool)
    requires idx < n <= |was| && b < CHAR_BIT && now == was[idx := WithBit(was[idx], b, flag)]
    ensures Flat(now[..n]) == WithRange(Flat(was[..n]), idx * CHAR_BIT + b, 1, flag)
  {
    assert now[..n] == was[..n][idx := WithBit(was[..n][idx], b, flag)];
    FlatWithBit(was[..n], idx, b, flag);
    FlipIsRange(Flat(was[..n]), idx * CHAR_BIT + b, flag);
  }

  /** The one-pass search for a run of clear bits, over the whole array; 0 when there is none. */
  method ScanForRun(data: array<Byte>, total: nat, pageCount: nat) returns (addr: nat)
    requires total == CHAR_BIT * data.Length && pageCount >= 1
    ensures addr == match FirstFit(Flat(data[..]), pageCount) { case None => 0 case Some(s) => s * PAGE_SIZE }
  {
    ghost var bits := Flat(data[..]);
    var run := 0;
    for i := 0 to total
      invariant Scanned(bits, i, run, pageCount)
    {
      var idx, b := i / CHAR_BIT, i % CHAR_BIT;
      assert bits[i] == Bit(data[idx], b);
      ScanNext(bits, i, run, pageCount);
      if Bit(data[idx], b) == false {
        run := run + 1;
        if run == pageCount {
          var start := i - (pageCount - 1);
          PageAddress(start);
          return IndexBitToAddress(start / CHAR_BIT, start % CHAR_BIT);
        }
      } else {
        run := 0;
      }
    }
    ScanEnd(bits, run, pageCount);
    return 0;
  }

  /** The test both scans make: whether the page of byte i and bit j is free. */
  method TestBit(data: array<Byte>, size: nat, i: nat, j: nat) returns (used: bool)
    requires i < size <= data.Length && j < CHAR_BIT
    ensures used == Flat(data[..size])[i * CHAR_BIT + j]
  {
    FlatAt(data[..size], i, j);
    return Bit(data[i], j);
  }

  /** The nested search for the lowest clear bit of the first `size` bytes. */
  method ScanForClearBit(data: array<Byte>, size: nat) returns (found: bool, i: nat, j: nat)
    requires size <= data.Length
    ensures found ==> i < size && j < CHAR_BIT && FirstFit(Flat(data[..size]), 1) == Some(i * CHAR_BIT + j)
    ensures !found ==> FirstFit(Flat(data[..size]), 1) == None
  {
    ghost var pages := Flat(data[..size]);
    i := 0;
    while i < size
      invariant i <= size
      invariant forall k :: 0 <= k < i * CHAR_BIT ==> pages[k]
    {
      j := 0;
      while j < CHAR_BIT
        invariant j <= CHAR_BIT
        invariant forall k :: 0 <= k < i * CHAR_BIT + j ==> pages[k]
      {
        var used := TestBit(data, size, i, j);
        if used == false {
          FirstFree(pages, i * CHAR_BIT + j);
          return true, i, j;
        }
        j := j + 1;
      }
      i := i + 1;
    }
    NoneFree(pages);
    return false, 0, 0;
  }

  /** The inner loop of the sum: the eight pages from page k on. */
  method SumByte(data: array<Byte>, size: nat, i: nat, ghost pages: seq<bool>, ghost k: nat, before: nat)
    returns (total: nat)
    requires i < size <= data.Length && pages == Flat(data[..size]) && k == i * CHAR_BIT && Counted(pages, k, before)
    ensures Counted(pages, k + CHAR_BIT, total)
  {
    total := before;
    for j := 0 to CHAR_BIT
      invariant Counted(pages, k + j, total)
    {
      CountedNext(pages, k + j, total);
      var used := TestBit(data, size, i, j);
      if used == false {
        total := total + PAGE_SIZE;
      }
    }
  }

  /** The nested sum over all clear bits of the first `size` bytes. */
  method SumFree(data: array<Byte>, size: nat) returns (total: nat)
    requires size <= data.Length
    ensures total == PAGE_SIZE * FreeCount(Flat(data[..size]))
  {
    ghost var pages, k := Flat(data[..size]), 0;
    total := 0;
    for i := 0 to size
      invariant k == i * CHAR_BIT && Counted(pages, k, total)
    {
      total := SumByte(data, size, i, pages, k, total);
      k := k + CHAR_BIT;
    }
  }

  /** The bitmap position and page count of a region, or that it is to be skipped. */
  method Locate(region: MemoryRegion) returns (skip: bool, idx: nat, b: nat, pageCount: nat)
    requires region.Representable()
    ensures skip <==> RangeOf(region) == None
    ensures !skip ==> RangeOf(region) == Some(PageRange(idx * CHAR_BIT + b, pageCount))
    ensures !skip ==> b < CHAR_BIT && idx * CHAR_BIT + b + pageCount < SIZE_LIMIT
    ensures !skip && idx * CHAR_BIT + b < PAGES ==> idx < BITMAP_BYTES
  {
    var base, length := region.Base, region.Length;
    if base < PAGE_SIZE {
      if (base + length) % SIZE_LIMIT < PAGE_SIZE {
        return true, 0, 0, 0;
      } else {
        base := PAGE_SIZE;
        length := base - PAGE_SIZE;
      }
    }
    if length < PAGE_SIZE {
      return true, 0, 0, 0;
    }
    var alignedBase := Align.AlignUp(base, PAGE_SIZE);
    RangeBits(region);
    var size := (base + length - alignedBase) % SIZE_LIMIT;
    if size < PAGE_SIZE {
      return true, 0, 0, 0;
    }
    return false, AddressToIndex(alignedBase), AddressToBit(alignedBase), size / PAGE_SIZE;
  }

  class EarlyPageAllocator {
    const Bitmap: array<Byte>      // the page bitmap, followed by the byte that happens to lie behind it
    var Called: bool               // ParseMemoryInfo's guard; the parser never sets it
    var IsInitialized: bool

    ghost predicate Valid()
      reads this
    {
      Bitmap.Length == BITMAP_BYTES + 1
    }

    ghost function Pages(): (p: seq<bool>)
      requires Valid()
      reads this, Bitmap
      ensures |p| == PAGES
    {
      Flat(Bitmap[..BITMAP_BYTES])
    }

    ghost function Neighbour(): Byte
      requires Valid()
      reads this, Bitmap
    {
      Bitmap[BITMAP_BYTES]
    }

    constructor (neighbour: Byte)
      ensures Valid() && fresh(Bitmap)
      ensures Neighbour() == neighbour && !Called && !IsInitialized
    {
      Bitmap := new Byte[BITMAP_BYTES + 1](k => if k == BITMAP_BYTES then neighbour else 0);
      Called, IsInitialized := false, false;
    }

    /** Whoever owns the byte behind the bitmap changes it. */
    method ChangeNeighbour(value: Byte)
      requires Valid()
      modifies Bitmap
      ensures Pages() == old(Pages()) && Neighbour() == value
    {
      ghost var was := Bitmap[..BITMAP_BYTES];
      Bitmap[BITMAP_BYTES] := value;
      assert Bitmap[..BITMAP_BYTES] == was;
    }

    /** FillMemory over the bitmap: every page is marked used. */
    method MarkAllUsed()
      requires Valid()
      modifies Bitmap
      ensures Pages() == AllUsed() && Neighbour() == old(Neighbour())
    {
      for i := 0 to BITMAP_BYTES
        invariant forall k :: 0 <= k < i ==> Bitmap[k] == 0xFF
        invariant Neighbour() == old(Neighbour())
      {
        Bitmap[i] := 0xFF;
      }
      forall k | 0 <= k < PAGES
        ensures Pages()[k]
      {
        FullByte(k % CHAR_BIT);
      }
      assert Pages() == AllUsed();
    }

    /** One iteration of the region loop. */
    method MarkRegion(region: MemoryRegion)
      requires Valid() && region.Representable() && SafeToWrite(region)
      modifies Bitmap
      ensures Pages() == MarkFree(old(Pages()), region) && Neighbour() == old(Neighbour())
    {
      var skip, idx, b, pageCount := Locate(region);
      if !skip {
        MarkPages(idx, b, pageCount);
      }
    }

    /** The end of the iteration: one bit without a bounds check, or a checked range. */
    method MarkPages(idx: nat, b: nat, pageCount: nat)
      requires Valid() && b < CHAR_BIT && idx * CHAR_BIT + b + pageCount < SIZE_LIMIT
      requires pageCount == 1 ==> idx < BITMAP_BYTES
      modifies Bitmap
      ensures Pages() == WithRange(old(Pages()), idx * CHAR_BIT + b, pageCount, false) && Neighbour() == old(Neighbour())
    {
      if pageCount == 1 {
        WriteBit(idx, b, false);
      } else {
        WriteRange(idx, b, pageCount, false);
      }
    }

    /** SetBit on one byte of the bitmap. */
    method WriteBit(idx: nat, b: nat, flag: bool)
      requires Valid() && idx < BITMAP_BYTES && b < CHAR_BIT
      modifies Bitmap
      ensures Pages() == WithRange(old(Pages()), idx * CHAR_BIT + b, 1, flag) && Neighbour() == old(Neighbour())
    {
      ghost var was := Bitmap[..];
      SetBit(Bitmap, idx, b, flag);
      assert was[..BITMAP_BYTES] == old(Bitmap[..BITMAP_BYTES]) && Bitmap[..][..BITMAP_BYTES] == Bitmap[..BITMAP_BYTES];
      PrefixWrite(was, Bitmap[..], BITMAP_BYTES, idx, b, flag);
      assert Bitmap[BITMAP_BYTES] == was[BITMAP_BYTES];
    }

    method WriteRange(idx: nat, b: nat, count: nat, flag: bool)
      requires Valid() && b < CHAR_BIT && idx * CHAR_BIT + b + count < SIZE_LIMIT
      modifies Bitmap
      ensures Pages() == WithRange(old(Pages()), idx * CHAR_BIT + b, count, flag) && Neighbour() == old(Neighbour())
    {
      NoWrap(BITMAP_BYTES, idx, b, count);
      ghost var behind := Bitmap[BITMAP_BYTES..];
      assert behind[0] == Neighbour();
      SetBitRange(Bitmap, BITMAP_BYTES, idx, b, count, flag);
      assert Bitmap[BITMAP_BYTES] == behind[0];
    }

    method ParseMemoryInfo(regions: seq<MemoryRegion>)
      requires Valid() && Acceptable(regions)
      modifies Bitmap
      ensures Neighbour() == old(Neighbour())
      ensures Pages() == if Called then old(Pages()) else Parsed(regions)
    {
      if Called {
        return;
      }
      MarkAllUsed();
      for i := 0 to |regions|
        invariant Pages() == Parsed(regions[..i]) && Neighbour() == old(Neighbour())
      {
        assert regions[..i + 1][..i] == regions[..i];
        MarkRegion(regions[i]);
      }
      assert regions[..|regions|] == regions;
    }

    method InitEarlyPageAllocator(regions: seq<MemoryRegion>)
      requires Valid() && Acceptable(regions)
      modifies this`IsInitialized, Bitmap
      ensures IsInitialized && Neighbour() == old(Neighbour())
      ensures Pages() == if old(IsInitialized) || Called then old(Pages()) else Parsed(regions)
    {
      if !IsInitialized {
        ParseMemoryInfo(regions);
      }
      IsInitialized := true;
    }

    /** The boot path parses the same list twice; the second pass changes nothing. */
    method InitMemory(regions: seq<MemoryRegion>)
      requires Valid() && Acceptable(regions) && !Called
      modifies this`IsInitialized, Bitmap
      ensures Pages() == Parsed(regions) && Neighbour() == old(Neighbour())
    {
      ParseMemoryInfo(regions);
      InitEarlyPageAllocator(regions);
    }

    // ------------------------------------------------------------ allocation

    method FindAvailableAddress(pageCount: nat) returns (addr: nat)
      requires Valid()
      ensures addr == FindAddress(Pages(), Neighbour(), pageCount)
    {
      if pageCount == 0 {
        return 0;
      }
      assert Bitmap[..][..BITMAP_BYTES] == Bitmap[..BITMAP_BYTES];
      FlatSplit(Bitmap[..], BITMAP_BYTES);
      var total := (BITMAP_BYTES + 1) * CHAR_BIT;
      if total < pageCount {
        return 0;
      }
      addr := ScanForRun(Bitmap, total, pageCount);
    }

    /** The nested scan of AllocatePage: the lowest clear bit of the bitmap. */
    method FindClearBit() returns (found: bool, i: nat, j: nat)
      requires Valid()
      ensures found ==> i < BITMAP_BYTES && j < CHAR_BIT && FirstFit(Pages(), 1) == Some(i * CHAR_BIT + j)
      ensures !found ==> FirstFit(Pages(), 1) == None
    {
      found, i, j := ScanForClearBit(Bitmap, BITMAP_BYTES);
    }

    method AllocatePage() returns (addr: nat)
      requires Valid()
      modifies Bitmap
      ensures var o := Allocate(old(Pages()), old(Neighbour()), 1); addr == o.addr && Pages() == o.pages
      ensures Neighbour() == old(Neighbour())
    {
      var found, i, j := FindClearBit();
      if !found {
        return 0;
      }
      addr := IndexBitToAddress(i, j);
      ghost var pages := Pages();
      WriteBit(i, j, true);
      FlipIsRange(pages, i * CHAR_BIT + j, true);
    }

    method AllocatePageSized(minSize: nat) returns (addr: nat)
      requires Valid() && minSize < SIZE_LIMIT
      modifies Bitmap
      ensures var o := Allocate(old(Pages()), old(Neighbour()), PagesFor(minSize)); addr == o.addr && Pages() == o.pages
      ensures Neighbour() == old(Neighbour())
      ensures addr == 0 || addr >= PAGE_SIZE
    {
      var pageCount := if minSize % PAGE_SIZE != 0 then minSize / PAGE_SIZE + 1 else minSize / PAGE_SIZE;
      if pageCount == 1 {
        addr := AllocatePage();
        return;
      }
      addr := FindAvailableAddress(pageCount);
      if addr == 0 {
        return;
      }
      FindAligned(Pages(), Neighbour(), pageCount);
      PageAddress(addr / PAGE_SIZE);
      WriteRange(AddressToIndex(addr), AddressToBit(addr), pageCount, true);
    }

    // ---------------------------------------------------------------- freeing

    method FreePage(addr: nat)
      requires Valid() && addr < MAX_MEMORY_SIZE_BYTES
      modifies Bitmap
      ensures Pages() == WithRange(old(Pages()), addr / PAGE_SIZE, 1, false) && Neighbour() == old(Neighbour())
    {
      WriteBit(AddressToIndex(addr), AddressToBit(addr), false);
    }

    method FreePageSized(addr: nat, allocatedSize: nat)
      requires Valid() && addr < SIZE_LIMIT && allocatedSize < SIZE_LIMIT
      modifies Bitmap
      ensures Pages() == WithRange(old(Pages()), addr / PAGE_SIZE, PagesFor(allocatedSize), false) && Neighbour() == old(Neighbour())
    {
      var pageCount := if allocatedSize % PAGE_SIZE != 0 then allocatedSize / PAGE_SIZE + 1 else allocatedSize / PAGE_SIZE;
      WriteRange(AddressToIndex(addr), AddressToBit(addr), pageCount, false);
    }

    method GetAvailableSize() returns (total: nat)
      requires Valid()
      ensures total == PAGE_SIZE * |FreePages(Pages())|
      ensures total == 0 <==> forall k :: 0 <= k < PAGES ==> Pages()[k]
    {
      total := SumFree(Bitmap, BITMAP_BYTES);
      FreeCountIs(Pages());
    }
  }

  lemma FindAligned(pages: seq<bool>, neighbour: Byte, count: nat)
    requires |pages| == PAGES
    ensures FindAddress(pages, neighbour, count) % PAGE_SIZE == 0
    ensures FindAddress(pages, neighbour, count) <= (PAGES + CHAR_BIT) * PAGE_SIZE
  {
  }
}
