/**
  What ParseMemoryInfo makes of the region list handed over by the boot loader: which pages
  end up free, exactly.
 */
module BootMemory {
  import opened Machine
  import opened Bits
  import opened PageMap
  import Align

  /** A region reported free; both fields are 64-bit. */
  datatype MemoryRegion = MemoryRegion(Base: nat, Length: nat) {
    predicate Representable() {
      Base < SIZE_LIMIT && Length < SIZE_LIMIT
    }
  }

  datatype PageRange = PageRange(start: nat, count: nat)

  /** The page range the loop body derives from one region, or None where it skips the region. */
  function RangeOf(r: MemoryRegion): Option<PageRange>
    requires r.Representable()
  {
    // A region that starts inside page 0 is cut to length 0, because its new length is
    // computed from its already overwritten base.
    var length := if r.Base < PAGE_SIZE then 0 else r.Length;
    if length < PAGE_SIZE then None
    else
      var aligned := Align.AlignUp(r.Base, PAGE_SIZE);
      var size := (r.Base + r.Length - aligned) % SIZE_LIMIT;
      if size < PAGE_SIZE then None else Some(PageRange(aligned / PAGE_SIZE, size / PAGE_SIZE))
  }

  /** The single-page branch writes without a bounds check, so such a region must lie in the bitmap. */
  predicate SafeToWrite(r: MemoryRegion)
    requires r.Representable()
  {
    RangeOf(r).Some? && RangeOf(r).value.count == 1 ==> RangeOf(r).value.start < PAGES
  }

  predicate Acceptable(regions: seq<MemoryRegion>) {
    forall i :: 0 <= i < |regions| ==> regions[i].Representable() && SafeToWrite(regions[i])
  }

  function AllUsed(): seq<bool> {
    seq(PAGES, _ => true)
  }

  function MarkFree(pages: seq<bool>, r: MemoryRegion): (m: seq<bool>)
    requires r.Representable()
    ensures |m| == |pages|
  {
    match RangeOf(r)
    case None => pages
    case Some(p) => WithRange(pages, p.start, p.count, false)
  }

  /** The bitmap after all regions, in list order. */
  function Parsed(regions: seq<MemoryRegion>): (m: seq<bool>)
    requires Acceptable(regions)
    ensures |m| == PAGES
  {
    if regions == [] then AllUsed() else MarkFree(Parsed(regions[..|regions| - 1]), regions[|regions| - 1])
  }

  // ------------------------------------------------------------ exactness

  /**
    Where the region starts.  The base of a region behind the last page boundary of the
    address space is rounded up to address 0, so such a region counts as one that starts
    just below 0.
   */
  function Start(r: MemoryRegion): int {
    if r.Base > SIZE_LIMIT - PAGE_SIZE then r.Base - SIZE_LIMIT else r.Base
  }

  predicate Contains(r: MemoryRegion, page: nat) {
    Start(r) <= page * PAGE_SIZE && (page + 1) * PAGE_SIZE <= Start(r) + r.Length
  }

  /** The region does not start inside page 0 and its last whole page has a bit. */
  predicate Usable(r: MemoryRegion) {
    r.Base >= PAGE_SIZE && (Start(r) + r.Length) / PAGE_SIZE <= PAGES
  }

  lemma AlignTwelveBits()
    ensures Align.Pow2(12) == PAGE_SIZE
  {
    assert Align.Pow2(6) == 64;
  }

  lemma AlignPage(r: MemoryRegion)
    requires r.Representable()
    ensures var a := Align.AlignUp(r.Base, PAGE_SIZE); a % PAGE_SIZE == 0 && Start(r) <= a < Start(r) + PAGE_SIZE
  {
    if r.Base <= SIZE_LIMIT - PAGE_SIZE {
      Align.AlignExactly(r.Base, PAGE_SIZE);
      Align.RoundsUpWithin(Align.AlignUp(r.Base, PAGE_SIZE), r.Base, PAGE_SIZE);
    } else {
      AlignTwelveBits();
      Align.PowersPass(12);
      var x := r.Base + (PAGE_SIZE - 1) - SIZE_LIMIT;
      assert (r.Base + (PAGE_SIZE - 1)) % SIZE_LIMIT == x;
      Align.MaskedWord(x, 12);
    }
  }

  lemma WholePages(start: int, end: int, aligned: nat, page: nat)
    requires aligned % PAGE_SIZE == 0 && start <= aligned < start + PAGE_SIZE && start + PAGE_SIZE <= end
    ensures start <= page * PAGE_SIZE && (page + 1) * PAGE_SIZE <= end <==>
            aligned / PAGE_SIZE <= page < aligned / PAGE_SIZE + (end - aligned) / PAGE_SIZE
    ensures aligned / PAGE_SIZE + (end - aligned) / PAGE_SIZE == end / PAGE_SIZE
  {
    var q := aligned / PAGE_SIZE;
    assert aligned == q * PAGE_SIZE;
  }

  /** The 64-bit size of the aligned part is the distance from its start to the region's end. */
  lemma AlignedSize(r: MemoryRegion)
    requires r.Representable() && r.Length >= PAGE_SIZE
    ensures var a := Align.AlignUp(r.Base, PAGE_SIZE); (r.Base + r.Length - a) % SIZE_LIMIT == Start(r) + r.Length - a
  {
    AlignPage(r);
    var a := Align.AlignUp(r.Base, PAGE_SIZE);
    var size := Start(r) + r.Length - a;
    assert 0 <= size < SIZE_LIMIT;
    assert r.Base + r.Length - a == size || r.Base + r.Length - a == size + SIZE_LIMIT;
  }

  /** The range in terms of the bitmap position of the aligned base. */
  lemma RangeBits(r: MemoryRegion)
    requires r.Representable() && r.Base >= PAGE_SIZE && r.Length >= PAGE_SIZE
    ensures
      var a := Align.AlignUp(r.Base, PAGE_SIZE);
      var size := (r.Base + r.Length - a) % SIZE_LIMIT;
      var start := AddressToIndex(a) * CHAR_BIT + AddressToBit(a);
      && start + size / PAGE_SIZE < SIZE_LIMIT
      && (start < PAGES ==> AddressToIndex(a) < BITMAP_BYTES)
      && (size >= PAGE_SIZE ==> RangeOf(r) == Some(PageRange(start, size / PAGE_SIZE)))
  {
    AlignPage(r);
    AlignedSize(r);
  }

  /** The derived range is exactly the whole pages inside the region. */
  lemma RangeIsContents(r: MemoryRegion, page: nat)
    requires r.Representable() && r.Base >= PAGE_SIZE
    ensures Contains(r, page) <==>
            RangeOf(r).Some? && RangeOf(r).value.start <= page < RangeOf(r).value.start + RangeOf(r).value.count
    ensures RangeOf(r).Some? ==>
              RangeOf(r).value.start + RangeOf(r).value.count == (Start(r) + r.Length) / PAGE_SIZE
  {
    if r.Length >= PAGE_SIZE {
      AlignPage(r);
      AlignedSize(r);
      WholePages(Start(r), Start(r) + r.Length, Align.AlignUp(r.Base, PAGE_SIZE), page);
    }
  }

  ghost predicate Reported(regions: seq<MemoryRegion>, page: nat) {
    exists i :: 0 <= i < |regions| && Usable(regions[i]) && Contains(regions[i], page)
  }

  lemma MarkFreeExact(pages: seq<bool>, r: MemoryRegion, page: nat)
    requires r.Representable() && |pages| == PAGES && page < PAGES
    ensures !MarkFree(pages, r)[page] <==> !pages[page] || (Usable(r) && Contains(r, page))
  {
    if r.Base >= PAGE_SIZE {
      RangeIsContents(r, page);
    }
  }

  /** A page ends free exactly when it lies wholly inside some usable region. */
  lemma {:induction false} ParsedExactly(regions: seq<MemoryRegion>, page: nat)
    requires Acceptable(regions) && page < PAGES
    ensures !Parsed(regions)[page] <==> Reported(regions, page)
    decreases |regions|
  {
    if regions != [] {
      var init, last := regions[..|regions| - 1], regions[|regions| - 1];
      ParsedExactly(init, page);
      MarkFreeExact(Parsed(init), last, page);
      ReportedStep(regions, page);
    }
  }

  lemma ReportedStep(regions: seq<MemoryRegion>, page: nat)
    requires regions != []
    ensures
      var init, last := regions[..|regions| - 1], regions[|regions| - 1];
      Reported(regions, page) <==> Reported(init, page) || (Usable(last) && Contains(last, page))
  {
    var init := regions[..|regions| - 1];
    if Reported(init, page) {
      var i :| 0 <= i < |init| && Usable(init[i]) && Contains(init[i], page);
      assert Usable(regions[i]) && Contains(regions[i], page);
    }
    if Reported(regions, page) {
      var i :| 0 <= i < |regions| && Usable(regions[i]) && Contains(regions[i], page);
      if i < |init| {
        assert Usable(init[i]) && Contains(init[i], page);
      }
    }
  }

  ghost function ReportedPages(regions: seq<MemoryRegion>): set<nat> {
    set page: nat | page < PAGES && Reported(regions, page)
  }

  /** After boot the size available is that of the pages reported, each counted once. */
  lemma {:induction false} AvailableAfterBoot(regions: seq<MemoryRegion>)
    requires Acceptable(regions)
    ensures FreeCount(Parsed(regions)) == |ReportedPages(regions)|
  {
    FreeCountIs(Parsed(regions));
    forall page: nat
      ensures page in FreePages(Parsed(regions)) <==> page in ReportedPages(regions)
    {
      if page < PAGES {
        ParsedExactly(regions, page);
      }
    }
    assert FreePages(Parsed(regions)) == ReportedPages(regions);
  }

  /** The region crosses the end of the address space from behind its last page boundary. */
  predicate WrapsOntoPageZero(r: MemoryRegion) {
    r.Base > SIZE_LIMIT - PAGE_SIZE && PAGE_SIZE <= r.Base + r.Length - SIZE_LIMIT < (PAGES + 1) * PAGE_SIZE
  }

  predicate NoneWraps(regions: seq<MemoryRegion>) {
    forall i :: 0 <= i < |regions| ==> !WrapsOntoPageZero(regions[i])
  }

  /** Page 0 stays in use, so that null always means failure, exactly when no region wraps round onto it. */
  lemma PageZeroUsed(regions: seq<MemoryRegion>)
    requires Acceptable(regions)
    ensures Parsed(regions)[0] <==> NoneWraps(regions)
  {
    ParsedExactly(regions, 0);
    forall i | 0 <= i < |regions|
      ensures Usable(regions[i]) && Contains(regions[i], 0) <==> WrapsOntoPageZero(regions[i])
    {
    }
  }

  /** Only which regions are listed matters, not their order or repetition. */
  lemma OrderIrrelevant(a: seq<MemoryRegion>, b: seq<MemoryRegion>)
    requires Acceptable(a) && Acceptable(b)
    requires forall r :: r in a <==> r in b
    ensures Parsed(a) == Parsed(b)
  {
    forall page | 0 <= page < PAGES
      ensures Parsed(a)[page] == Parsed(b)[page]
    {
      ParsedExactly(a, page);
      ParsedExactly(b, page);
      SameReports(a, b, page);
      SameReports(b, a, page);
    }
  }

  lemma SameReports(a: seq<MemoryRegion>, b: seq<MemoryRegion>, page: nat)
    requires forall r :: r in a ==> r in b
    ensures Reported(a, page) ==> Reported(b, page)
  {
    if Reported(a, page) {
      var i :| 0 <= i < |a| && Usable(a[i]) && Contains(a[i], page);
      assert a[i] in b;
      var j :| 0 <= j < |b| && b[j] == a[i];
      assert Usable(b[j]) && Contains(b[j], page);
    }
  }

  // -------------------------------------------------------- regions dropped whole

  /** What the cut to page 1 is meant to achieve: every whole page of the region but page 0. */
  ghost predicate FreesAllButPageZero(r: MemoryRegion)
    requires Acceptable([r])
  {
    forall page :: 1 <= page < PAGES && Contains(r, page) ==> !Parsed([r])[page]
  }

  /** The first page above page 0 that does not start before the region. */
  function FirstWhole(r: MemoryRegion): nat {
    if Start(r) <= PAGE_SIZE then 1 else (Start(r) + PAGE_SIZE - 1) / PAGE_SIZE
  }

  /** The region has a whole page other than page 0 that the bitmap covers. */
  predicate HasPages(r: MemoryRegion) {
    FirstWhole(r) < PAGES && (FirstWhole(r) + 1) * PAGE_SIZE <= Start(r) + r.Length
  }

  lemma FirstWholeIs(r: MemoryRegion, page: nat)
    requires page >= 1
    ensures Start(r) <= page * PAGE_SIZE <==> FirstWhole(r) <= page
  {
  }

  lemma SingleExactly(r: MemoryRegion, page: nat)
    requires Acceptable([r]) && page < PAGES
    ensures !Parsed([r])[page] <==> Usable(r) && Contains(r, page)
  {
    ParsedExactly([r], page);
    assert Usable([r][0]) == Usable(r);
  }

  /**
    A region frees all its whole pages but page 0 exactly when it is usable or has no such
    page: one that starts inside page 0, or runs past the end of the bitmap, is dropped whole.
   */
  lemma DroppedExactly(r: MemoryRegion)
    requires Acceptable([r])
    ensures FreesAllButPageZero(r) <==> Usable(r) || !HasPages(r)
  {
    forall page | 1 <= page < PAGES
      ensures !Parsed([r])[page] <==> Usable(r) && Contains(r, page)
      ensures Contains(r, page) ==> HasPages(r)
    {
      SingleExactly(r, page);
      FirstWholeIs(r, page);
    }
    if HasPages(r) {
      FirstWholeIs(r, FirstWhole(r));
      assert Contains(r, FirstWhole(r));
    }
  }
}
