/**
  The page allocator over whole runs: any sequence of allocations and matching frees,
  started from any page map in which page 0 is in use.
 */
module AllocatorRuns {
  import opened Machine
  import opened Sequences
  import opened Bits
  import opened PageMap
  import opened Allocation
  import BootMemory
  import PageAllocator

  /** A block handed out and not yet freed. */
  datatype Block = Block(start: nat, count: nat) {
    predicate Has(page: nat) {
      start <= page < start + count
    }

    predicate Fits(size: nat) {
      start + count <= size
    }
  }

  datatype Heap = Heap(pages: seq<bool>, live: seq<Block>)

  /**
    Acquire asks for a number of bytes, at a time when the given byte lies behind the bitmap:
    it belongs to some other variable and may change between requests.  Release frees a live
    block with its own size.
   */
  datatype Request = Acquire(bytes: nat, neighbour: Byte) | Release(index: nat)

  function Step(h: Heap, q: Request): Heap {
    match q
    case Acquire(bytes, neighbour) =>
      var o := Allocate(h.pages, neighbour, PagesFor(bytes));
      if o.addr == 0 then h.(pages := o.pages)
      else Heap(o.pages, h.live + [Block(o.addr / PAGE_SIZE, PagesFor(bytes))])
    case Release(i) =>
      if i >= |h.live| then h
      else Heap(Free(h.pages, h.live[i].start * PAGE_SIZE, h.live[i].count), Without(h.live, i))
  }

  function Exec(start: seq<bool>, run: seq<Request>): Heap
    decreases |run|
  {
    if run == [] then Heap(start, []) else Step(Exec(start, run[..|run| - 1]), run[|run| - 1])
  }

  /** The only bytes that allocations of the run find behind the bitmap. */
  predicate Sees(run: seq<Request>, bytes: set<Byte>) {
    forall i :: 0 <= i < |run| && run[i].Acquire? ==> run[i].neighbour in bytes
  }

  predicate SafeRequest(q: Request) {
    q.Acquire? ==> SafeNeighbour(q.neighbour)
  }

  /** Every allocation of the run finds a safe byte behind the bitmap. */
  predicate SafeRun(run: seq<Request>) {
    forall i :: 0 <= i < |run| ==> SafeRequest(run[i])
  }

  /** Sizes and addresses of the block fit 64 bits. */
  predicate Small(b: Block) {
    b.start <= PAGES + CHAR_BIT && b.count * PAGE_SIZE < SIZE_LIMIT + PAGE_SIZE
  }

  predicate AllSmall(live: seq<Block>) {
    forall i :: 0 <= i < |live| ==> Small(live[i])
  }

  lemma AllocateSmall(pages: seq<bool>, neighbour: Byte, count: nat)
    requires |pages| == PAGES
    ensures Allocate(pages, neighbour, count).addr / PAGE_SIZE <= PAGES + CHAR_BIT
  {
    PageAllocator.FindAligned(pages, neighbour, count);
  }

  /** A size in bytes that a caller may free a block with: one that rounds up to the block. */
  function SizeOf(b: Block): nat
    requires Small(b)
  {
    if b.count * PAGE_SIZE < SIZE_LIMIT then b.count * PAGE_SIZE else SIZE_LIMIT - 1
  }

  lemma SizeOfRoundsUp(b: Block)
    requires Small(b)
    ensures SizeOf(b) < SIZE_LIMIT && PagesFor(SizeOf(b)) == b.count
    ensures b.start * PAGE_SIZE < SIZE_LIMIT && b.start * PAGE_SIZE / PAGE_SIZE == b.start
  {
  }

  method ServeOne(a: PageAllocator.EarlyPageAllocator, before: seq<Block>, q: Request) returns (live: seq<Block>)
    requires a.Valid() && AllSmall(before)
    requires q.Acquire? ==> q.bytes < SIZE_LIMIT
    modifies a.Bitmap
    ensures AllSmall(live)
    ensures Heap(a.Pages(), live) == Step(Heap(old(a.Pages()), before), q)
  {
    live := before;
    match q
    case Acquire(bytes, neighbour) =>
      a.ChangeNeighbour(neighbour);
      AllocateSmall(a.Pages(), neighbour, PagesFor(bytes));
      var addr := a.AllocatePageSized(bytes);
      if addr != 0 {
        live := live + [Block(addr / PAGE_SIZE, PagesFor(bytes))];
      }
    case Release(i) =>
      if i < |live| {
        SizeOfRoundsUp(live[i]);
        a.FreePageSized(live[i].start * PAGE_SIZE, SizeOf(live[i]));
        live := Without(live, i);
      }
  }

  /** The allocator object, driven by a run, computes the run's page map and live blocks. */
  method Serve(a: PageAllocator.EarlyPageAllocator, run: seq<Request>) returns (live: seq<Block>)
    requires a.Valid()
    requires forall i :: 0 <= i < |run| && run[i].Acquire? ==> run[i].bytes < SIZE_LIMIT
    modifies a.Bitmap
    ensures Heap(a.Pages(), live) == Exec(old(a.Pages()), run)
  {
    live := [];
    for k := 0 to |run|
      invariant AllSmall(live) && Heap(a.Pages(), live) == Exec(old(a.Pages()), run[..k])
    {
      assert run[..k + 1][..k] == run[..k];
      live := ServeOne(a, live, run[k]);
    }
    assert run[..|run|] == run;
  }

  // -------------------------------------------------------------- invariants

  /** The page belongs to a live block that lies inside the map. */
  ghost predicate Covered(live: seq<Block>, size: nat, page: nat) {
    exists i :: 0 <= i < |live| && live[i].Fits(size) && live[i].Has(page)
  }

  /** Blocks are non-empty, and those inside the map hold only pages that were free at the start. */
  ghost predicate FromFreePages(start: seq<bool>, live: seq<Block>) {
    forall i :: 0 <= i < |live| ==>
      && live[i].count >= 1
      && (live[i].Fits(|start|) ==> forall p :: live[i].start <= p < live[i].start + live[i].count ==> !start[p])
  }

  /** No page is in two blocks that lie inside the map. */
  ghost predicate PairwiseDisjoint(live: seq<Block>, size: nat) {
    forall i, j, p: nat ::
      0 <= i < j < |live| && live[i].Fits(size) && live[i].Has(p) ==> !(live[j].Fits(size) && live[j].Has(p))
  }

  /** A page is marked used exactly when it was used at the start or belongs to a live block inside the map. */
  ghost predicate MarksMatch(start: seq<bool>, h: Heap) {
    && |h.pages| == |start|
    && forall p :: 0 <= p < |start| ==> (h.pages[p] <==> start[p] || Covered(h.live, |start|, p))
  }

  /** What holds whatever byte lies behind the bitmap. */
  ghost predicate Tidy(start: seq<bool>, h: Heap) {
    && FromFreePages(start, h.live)
    && PairwiseDisjoint(h.live, |start|)
    && MarksMatch(start, h)
  }

  predicate AllFit(live: seq<Block>, size: nat) {
    forall i :: 0 <= i < |live| ==> live[i].Fits(size)
  }

  /** What callers rely on: all of that, and every live block lies inside the map. */
  ghost predicate Inv(start: seq<bool>, h: Heap) {
    Tidy(start, h) && AllFit(h.live, |start|)
  }

  lemma CoveredAppend(live: seq<Block>, b: Block, size: nat, page: nat)
    ensures Covered(live + [b], size, page) <==> Covered(live, size, page) || (b.Fits(size) && b.Has(page))
  {
    var more := live + [b];
    if Covered(live, size, page) {
      var i :| 0 <= i < |live| && live[i].Fits(size) && live[i].Has(page);
      assert more[i].Fits(size) && more[i].Has(page);
    }
    if b.Fits(size) && b.Has(page) {
      assert more[|live|].Fits(size) && more[|live|].Has(page);
    }
    if Covered(more, size, page) {
      var i :| 0 <= i < |more| && more[i].Fits(size) && more[i].Has(page);
      assert i < |live| ==> live[i].Fits(size) && live[i].Has(page);
    }
  }

  lemma CoveredWithout(live: seq<Block>, i: nat, size: nat, page: nat)
    requires i < |live| && PairwiseDisjoint(live, size)
    ensures Covered(Without(live, i), size, page) <==>
            Covered(live, size, page) && !(live[i].Fits(size) && live[i].Has(page))
  {
    var rest := Without(live, i);
    if Covered(rest, size, page) {
      var k :| 0 <= k < |rest| && rest[k].Fits(size) && rest[k].Has(page);
      var k' := if k < i then k else k + 1;
      assert live[k'].Fits(size) && live[k'].Has(page);
    }
    if Covered(live, size, page) && !(live[i].Fits(size) && live[i].Has(page)) {
      var k :| 0 <= k < |live| && live[k].Fits(size) && live[k].Has(page);
      var k' := if k < i then k else k - 1;
      assert rest[k'].Fits(size) && rest[k'].Has(page);
    }
  }

  lemma DisjointWithout(live: seq<Block>, i: nat, size: nat)
    requires i < |live| && PairwiseDisjoint(live, size)
    ensures PairwiseDisjoint(Without(live, i), size)
  {
    var rest := Without(live, i);
    forall k, l, p: nat | 0 <= k < l < |rest| && rest[k].Fits(size) && rest[k].Has(p)
      ensures !(rest[l].Fits(size) && rest[l].Has(p))
    {
      var k', l' := if k < i then k else k + 1, if l < i then l else l + 1;
      assert live[k'] == rest[k] && live[l'] == rest[l];
    }
  }

  /** A new block inside the map took only pages that nobody had. */
  lemma NewBlockFree(start: seq<bool>, h: Heap, b: Block, page: nat)
    requires MarksMatch(start, h) && b.Fits(|start|) && FreeRun(h.pages, b.start, b.count) && b.Has(page)
    ensures !start[page] && !Covered(h.live, |start|, page)
  {
    assert !h.pages[page];
  }

  lemma AppendTidy(start: seq<bool>, h: Heap, b: Block)
    requires Tidy(start, h) && b.count >= 1
    requires b.Fits(|start|) ==> FreeRun(h.pages, b.start, b.count)
    ensures Tidy(start, Heap(WithRange(h.pages, b.start, b.count, true), h.live + [b]))
  {
    var h' := Heap(WithRange(h.pages, b.start, b.count, true), h.live + [b]);
    forall p: nat | b.Fits(|start|) && b.Has(p)
      ensures !start[p] && !Covered(h.live, |start|, p)
    {
      NewBlockFree(start, h, b, p);
    }
    forall p | 0 <= p < |start|
      ensures h'.pages[p] <==> start[p] || Covered(h'.live, |start|, p)
    {
      CoveredAppend(h.live, b, |start|, p);
    }
  }

  lemma TidyAcquire(start: seq<bool>, h: Heap, bytes: nat, neighbour: Byte)
    requires Tidy(start, h) && |start| > 0 && start[0]
    ensures Tidy(start, Step(h, Acquire(bytes, neighbour)))
  {
    var count := PagesFor(bytes);
    var o := Allocate(h.pages, neighbour, count);
    if o.addr != 0 {
      AllocateMarks(h.pages, neighbour, count);
      AppendTidy(start, h, Block(o.addr / PAGE_SIZE, count));
    } else {
      assert h.pages[0];
      assert o.pages == h.pages;
    }
  }

  lemma TidyRelease(start: seq<bool>, h: Heap, i: nat)
    requires Tidy(start, h) && i < |h.live|
    ensures Tidy(start, Step(h, Release(i)))
  {
    var b := h.live[i];
    DisjointWithout(h.live, i, |start|);
    assert b.start * PAGE_SIZE / PAGE_SIZE == b.start;
    var h' := Step(h, Release(i));
    forall p | 0 <= p < |start|
      ensures h'.pages[p] <==> start[p] || Covered(h'.live, |start|, p)
    {
      CoveredWithout(h.live, i, |start|, p);
    }
  }

  lemma TidyStep(start: seq<bool>, h: Heap, q: Request)
    requires Tidy(start, h) && |start| > 0 && start[0]
    ensures Tidy(start, Step(h, q))
  {
    match q
    case Acquire(bytes, neighbour) => TidyAcquire(start, h, bytes, neighbour);
    case Release(i) =>
      if i < |h.live| {
        TidyRelease(start, h, i);
      }
  }

  /** After every run, whatever bytes lie behind the bitmap. */
  lemma {:induction false} TidyRun(start: seq<bool>, run: seq<Request>)
    requires |start| > 0 && start[0]
    ensures Tidy(start, Exec(start, run))
    decreases |run|
  {
    if run != [] {
      TidyRun(start, run[..|run| - 1]);
      TidyStep(start, Exec(start, run[..|run| - 1]), run[|run| - 1]);
    }
  }

  lemma FitStep(h: Heap, q: Request)
    requires AllFit(h.live, |h.pages|) && |h.pages| > 0 && h.pages[0] && SafeRequest(q)
    ensures AllFit(Step(h, q).live, |h.pages|)
  {
    if q.Acquire? && PagesFor(q.bytes) >= 1 {
      SafeIsSound(h.pages, q.neighbour, PagesFor(q.bytes));
    }
  }

  lemma InvStep(start: seq<bool>, h: Heap, q: Request)
    requires Inv(start, h) && |start| > 0 && start[0] && SafeRequest(q)
    ensures Inv(start, Step(h, q))
  {
    TidyStep(start, h, q);
    FitStep(h, q);
  }

  /** The full invariant after every run, from every page map with page 0 in use. */
  lemma {:induction false} InvRun(start: seq<bool>, run: seq<Request>)
    requires |start| > 0 && start[0] && SafeRun(run)
    ensures Inv(start, Exec(start, run))
    decreases |run|
  {
    if run != [] {
      InvRun(start, run[..|run| - 1]);
      InvStep(start, Exec(start, run[..|run| - 1]), run[|run| - 1]);
    }
  }

  // -------------------------------------------------- exactly which neighbours

  predicate AllSafe(bytes: set<Byte>) {
    forall b :: b in bytes ==> SafeNeighbour(b)
  }

  /** The invariant holds after every run that sees only these bytes, from every page map with page 0 in use. */
  ghost predicate AlwaysSafe(bytes: set<Byte>) {
    forall start: seq<bool>, run :: |start| == PAGES && start[0] && Sees(run, bytes) ==> Inv(start, Exec(start, run))
  }

  /** The same for page maps that the boot-time parser produces. */
  ghost predicate SafeAfterBoot(bytes: set<Byte>) {
    forall regions, run :: BootMemory.Acceptable(regions) && BootMemory.NoneWraps(regions) && Sees(run, bytes) ==>
      Inv(BootMemory.Parsed(regions), Exec(BootMemory.Parsed(regions), run))
  }

  const LAST_PAGE := BootMemory.MemoryRegion((PAGES - 1) * PAGE_SIZE, PAGE_SIZE)

  lemma LastPageReported()
    ensures BootMemory.Acceptable([LAST_PAGE]) && BootMemory.NoneWraps([LAST_PAGE])
    ensures LastFree(BootMemory.Parsed([LAST_PAGE]))
  {
    BootMemory.RangeIsContents(LAST_PAGE, PAGES - 1);
    assert BootMemory.SafeToWrite(LAST_PAGE);
    forall k | 0 <= k < PAGES
      ensures BootMemory.Parsed([LAST_PAGE])[k] <==> k != PAGES - 1
    {
      BootMemory.ParsedExactly([LAST_PAGE], k);
      assert BootMemory.Usable([LAST_PAGE][0]);
    }
  }

  /** Where one allocation is unsound, one request breaks the invariant. */
  lemma UnsoundBreaks(start: seq<bool>, neighbour: Byte)
    requires LastFree(start) && !Sound(start, 2, Allocate(start, neighbour, 2))
    ensures !Inv(start, Exec(start, [Acquire(2 * PAGE_SIZE, neighbour)]))
  {
    SoundExactly(start, neighbour, 2);
    var run := [Acquire(2 * PAGE_SIZE, neighbour)];
    assert run[..0] == [];
    assert PagesFor(2 * PAGE_SIZE) == 2;
    var o := Allocate(start, neighbour, 2);
    AllocateBeyond(start, neighbour);
    assert Exec(start, run).live == [Block(o.addr / PAGE_SIZE, 2)];
    assert !Exec(start, run).live[0].Fits(|start|);
  }

  lemma AllocateBeyond(start: seq<bool>, neighbour: Byte)
    requires LastFree(start) && !HasRun(start, 2) && HasRun(Extended(start, neighbour), 2)
    ensures
      var o := Allocate(start, neighbour, 2);
      o.addr != 0 && o.addr / PAGE_SIZE + 2 > |start|
  {
    var e := Extended(start, neighbour);
    FirstFitSome(e, 2);
    var s := FirstFit(e, 2).value;
    assert e[0] && !e[s];
    if s + 2 <= |start| {
      RunInExtended(start, neighbour, s, 2);
    }
  }

  /** Whole runs are safe, from all maps or just from those after boot, exactly when every byte they may see is safe. */
  lemma RunsSafeExactly(bytes: set<Byte>)
    ensures AlwaysSafe(bytes) <==> AllSafe(bytes)
    ensures SafeAfterBoot(bytes) <==> AllSafe(bytes)
  {
    if AllSafe(bytes) {
      forall start: seq<bool>, run | |start| == PAGES && start[0] && Sees(run, bytes)
        ensures Inv(start, Exec(start, run))
      {
        InvRun(start, run);
      }
      forall regions, run | BootMemory.Acceptable(regions) && BootMemory.NoneWraps(regions) && Sees(run, bytes)
        ensures Inv(BootMemory.Parsed(regions), Exec(BootMemory.Parsed(regions), run))
      {
        BootMemory.PageZeroUsed(regions);
        InvRun(BootMemory.Parsed(regions), run);
      }
    } else {
      var b :| b in bytes && !SafeNeighbour(b);
      LastPageReported();
      var start := BootMemory.Parsed([LAST_PAGE]);
      UnsafeOn(start, b);
      UnsoundBreaks(start, b);
      assert Sees([Acquire(2 * PAGE_SIZE, b)], bytes);
    }
  }

  // -------------------------------------------------------- one request in full

  /**
    What a request for memory does in any state a safe run can reach: the lowest run of free
    pages that is long enough becomes a live block, and the free pages drop by exactly its
    length; with no such run, or for zero bytes, nothing changes.
   */
  lemma {:induction false} AcquireExactly(start: seq<bool>, h: Heap, bytes: nat, neighbour: Byte)
    requires Inv(start, h) && |start| > 0 && start[0] && SafeNeighbour(neighbour)
    ensures
      var n, h' := PagesFor(bytes), Step(h, Acquire(bytes, neighbour));
      if n >= 1 && HasRun(h.pages, n) then
        && |h'.live| == |h.live| + 1 && h'.live[..|h.live|] == h.live
        && var b := h'.live[|h.live|];
           && b.count == n && LowestRunAt(h.pages, b.start, n)
           && h'.pages == WithRange(h.pages, b.start, n, true)
           && |FreePages(h'.pages)| + n == |FreePages(h.pages)|
      else h' == h
  {
    var n := PagesFor(bytes);
    if n >= 1 {
      assert h.pages[0];
      SafeIsSound(h.pages, neighbour, n);
      var o := Allocate(h.pages, neighbour, n);
      if o.addr != 0 {
        CountAfterRange(h.pages, o.addr / PAGE_SIZE, n, true);
        FreeCountIs(h.pages);
        FreeCountIs(o.pages);
      }
    }
  }

  /** What a free does: the block leaves the live ones, its pages and no others become free. */
  lemma {:induction false} ReleaseExactly(start: seq<bool>, h: Heap, i: nat)
    requires Inv(start, h) && i < |h.live|
    ensures
      var b, h' := h.live[i], Step(h, Release(i));
      && h'.live == h.live[..i] + h.live[i + 1..]
      && |h'.pages| == |h.pages| && (forall p: nat :: p < |h.pages| ==> h'.pages[p] == (h.pages[p] && !b.Has(p)))
      && |FreePages(h'.pages)| == |FreePages(h.pages)| + b.count
  {
    var b := h.live[i];
    assert b.Fits(|start|) && b.start * PAGE_SIZE / PAGE_SIZE == b.start;
    forall p | b.start <= p < b.start + b.count
      ensures h.pages[p]
    {
      assert b.Has(p);
    }
    CountAfterRange(h.pages, b.start, b.count, false);
    FreeCountIs(h.pages);
    FreeCountIs(Step(h, Release(i)).pages);
  }

  // ------------------------------------------------------------ consequences

  /**
    From the boot-time map, after any run: live blocks are disjoint, never include page 0,
    lie in usable reported regions and are fully marked used.
   */
  lemma BlocksAreSafe(regions: seq<BootMemory.MemoryRegion>, run: seq<Request>, i: nat, page: nat)
    requires BootMemory.Acceptable(regions) && BootMemory.NoneWraps(regions) && SafeRun(run)
    requires var h := Exec(BootMemory.Parsed(regions), run); i < |h.live| && h.live[i].Has(page)
    ensures
      var h := Exec(BootMemory.Parsed(regions), run);
      && |h.pages| == PAGES && 0 < page < PAGES && h.pages[0] && h.pages[page]
      && BootMemory.Reported(regions, page)
      && forall j :: 0 <= j < |h.live| && j != i ==> !h.live[j].Has(page)
  {
    var start := BootMemory.Parsed(regions);
    BootMemory.PageZeroUsed(regions);
    InvRun(start, run);
    var h := Exec(start, run);
    assert h.live[i].Fits(|start|);
    BootMemory.ParsedExactly(regions, page);
  }

  /** When everything has been freed the page map is exactly the one at the start, whatever lies behind the bitmap. */
  lemma AllFreedRestores(start: seq<bool>, run: seq<Request>)
    requires |start| > 0 && start[0]
    requires Exec(start, run).live == []
    ensures Exec(start, run).pages == start
  {
    TidyRun(start, run);
  }

  /** Whenever everything has been freed the page map is the one at the start. */
  ghost predicate AlwaysRestores(start: seq<bool>) {
    forall run :: Exec(start, run).live == [] ==> Exec(start, run).pages == start
  }

  /** A free page 0 is marked used and reported as null, so it is lost; no other start map loses anything. */
  lemma RestoresExactly(start: seq<bool>)
    requires |start| > 0
    ensures AlwaysRestores(start) <==> start[0]
  {
    if start[0] {
      forall run | Exec(start, run).live == []
        ensures Exec(start, run).pages == start
      {
        AllFreedRestores(start, run);
      }
    } else {
      var run := [Acquire(1, 0xFF)];
      assert run[..0] == [] && PagesFor(1) == 1;
      FirstFree(start, 0);
      assert Exec(start, run) == Heap(start[0 := true], []);
      assert start[0 := true][0];
    }
  }

  /** An allocation undone by its matching free leaves the page map as it was, whatever lies behind the bitmap. */
  lemma AllocateFreeInverse(pages: seq<bool>, neighbour: Byte, count: nat)
    requires Allocate(pages, neighbour, count).addr != 0
    ensures var o := Allocate(pages, neighbour, count); Free(o.pages, o.addr, count) == pages
  {
    AllocateMarks(pages, neighbour, count);
  }

  function Size(b: Block): nat {
    b.count
  }

  function Total(live: seq<Block>): nat {
    Sum(live, Size)
  }

  /** The pages of a block that the allocator could mark: all of them, or none when it leaves the map. */
  function SizeWithin(size: nat): Block -> nat {
    (b: Block) => if b.Fits(size) then b.count else 0
  }

  function Marked(live: seq<Block>, size: nat): nat {
    Sum(live, SizeWithin(size))
  }

  lemma {:induction false} MarkedTotal(live: seq<Block>, size: nat)
    requires forall i :: 0 <= i < |live| ==> live[i].count >= 1
    ensures Marked(live, size) <= Total(live)
    ensures Marked(live, size) == Total(live) <==> AllFit(live, size)
    decreases |live|
  {
    if live != [] {
      MarkedTotal(live[..|live| - 1], size);
      assert AllFit(live, size) <==> AllFit(live[..|live| - 1], size) && live[|live| - 1].Fits(size);
    }
  }

  lemma CountAcquire(h: Heap, bytes: nat, neighbour: Byte)
    requires |h.pages| > 0 && h.pages[0]
    ensures
      var h' := Step(h, Acquire(bytes, neighbour));
      FreeCount(h'.pages) + Marked(h'.live, |h.pages|) == FreeCount(h.pages) + Marked(h.live, |h.pages|)
  {
    var count, size := PagesFor(bytes), |h.pages|;
    var o := Allocate(h.pages, neighbour, count);
    if o.addr != 0 {
      AllocateMarks(h.pages, neighbour, count);
      var b := Block(o.addr / PAGE_SIZE, count);
      SumAppend(h.live, b, SizeWithin(size));
      if b.Fits(size) {
        CountAfterRange(h.pages, b.start, count, true);
      }
    } else {
      assert o.pages == h.pages;
    }
  }

  lemma CountRelease(start: seq<bool>, h: Heap, i: nat)
    requires Tidy(start, h) && i < |h.live|
    ensures
      var h' := Step(h, Release(i));
      FreeCount(h'.pages) + Marked(h'.live, |start|) == FreeCount(h.pages) + Marked(h.live, |start|)
  {
    var b := h.live[i];
    assert b.start * PAGE_SIZE / PAGE_SIZE == b.start;
    SumWithout(h.live, i, SizeWithin(|start|));
    if b.Fits(|start|) {
      forall p | b.start <= p < b.start + b.count
        ensures h.pages[p]
      {
        assert b.Has(p);
      }
      CountAfterRange(h.pages, b.start, b.count, false);
    }
  }

  lemma {:induction false} MarkedConserved(start: seq<bool>, run: seq<Request>)
    requires |start| > 0 && start[0]
    ensures var h := Exec(start, run); FreeCount(h.pages) + Marked(h.live, |start|) == FreeCount(start)
    decreases |run|
  {
    if run != [] {
      var before, q := run[..|run| - 1], run[|run| - 1];
      MarkedConserved(start, before);
      TidyRun(start, before);
      var h := Exec(start, before);
      match q
      case Acquire(bytes, neighbour) => CountAcquire(h, bytes, neighbour);
      case Release(i) =>
        if i < |h.live| {
          CountRelease(start, h, i);
        }
    }
  }

  /** Free pages and pages in live blocks add up to the pages free at the start exactly when all live blocks lie inside the map. */
  lemma PagesConserved(start: seq<bool>, run: seq<Request>)
    requires |start| > 0 && start[0]
    ensures
      var h := Exec(start, run);
      FreeCount(h.pages) + Total(h.live) == FreeCount(start) <==> AllFit(h.live, |start|)
    ensures SafeRun(run) ==> AllFit(Exec(start, run).live, |start|)
  {
    MarkedConserved(start, run);
    TidyRun(start, run);
    MarkedTotal(Exec(start, run).live, |start|);
    if SafeRun(run) {
      InvRun(start, run);
    }
  }
}
