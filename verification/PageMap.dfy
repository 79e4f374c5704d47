/**
  The one-bit-per-page view of physical memory: constants, address conversions, contiguous
  free runs and how many pages are free.  A page's bit is true when the page is in use.
 */
module PageMap {
  import opened Bits

  const PAGE_SIZE: nat := 4096
  const MAX_MEMORY_SIZE_BYTES: nat := 68719476736
  const BITMAP_BYTES: nat := (MAX_MEMORY_SIZE_BYTES / PAGE_SIZE) / CHAR_BIT
  const PAGES: nat := BITMAP_BYTES * CHAR_BIT

  datatype Option<T> = None | Some(value: T)

  // ------------------------------------------------------ address conversions

  function AddressToIndex(addr: nat): nat {
    (addr / PAGE_SIZE) / CHAR_BIT
  }

  function AddressToBit(addr: nat): nat {
    (addr / PAGE_SIZE) % CHAR_BIT
  }

  function IndexBitToAddress(index: nat, bit: nat): nat {
    (index * CHAR_BIT * PAGE_SIZE) + (bit * PAGE_SIZE)
  }

  /** Bitmap position and page address determine each other. */
  lemma AddressRoundTrip(addr: nat, index: nat, bit: nat)
    requires bit < CHAR_BIT
    ensures IndexBitToAddress(AddressToIndex(addr), AddressToBit(addr)) == addr - addr % PAGE_SIZE
    ensures AddressToIndex(IndexBitToAddress(index, bit)) == index
    ensures AddressToBit(IndexBitToAddress(index, bit)) == bit
    ensures IndexBitToAddress(index, bit) == (index * CHAR_BIT + bit) * PAGE_SIZE
  {
    var page := index * CHAR_BIT + bit;
    assert IndexBitToAddress(index, bit) == page * PAGE_SIZE;
    assert page * PAGE_SIZE / PAGE_SIZE == page;
  }

  lemma PageAddress(page: nat)
    ensures IndexBitToAddress(page / CHAR_BIT, page % CHAR_BIT) == page * PAGE_SIZE
    ensures AddressToIndex(page * PAGE_SIZE) * CHAR_BIT + AddressToBit(page * PAGE_SIZE) == page
  {
  }

  /** Whole pages needed for a number of bytes. */
  function PagesFor(size: nat): nat {
    if size % PAGE_SIZE != 0 then size / PAGE_SIZE + 1 else size / PAGE_SIZE
  }

  lemma PagesForRoundsUp(size: nat)
    ensures (PagesFor(size) * PAGE_SIZE) - PAGE_SIZE < size <= PagesFor(size) * PAGE_SIZE || size == PagesFor(size) == 0
    ensures PagesFor(PagesFor(size) * PAGE_SIZE) == PagesFor(size)
  {
  }

  // -------------------------------------------------------------- free runs

  predicate FreeRun(pages: seq<bool>, start: nat, count: nat) {
    start + count <= |pages| && forall k :: start <= k < start + count ==> !pages[k]
  }

  /** The lowest start, not below `from`, of `count` consecutive free pages. */
  function LeastRun(pages: seq<bool>, count: nat, from: nat): (r: Option<nat>)
    ensures r.Some? ==> from <= r.value && FreeRun(pages, r.value, count)
    ensures forall s :: from <= s < (if r.Some? then r.value else |pages| + 1) ==> !FreeRun(pages, s, count)
    decreases |pages| + 1 - from
  {
    if from + count > |pages| then None
    else if FreeRun(pages, from, count) then Some(from)
    else LeastRun(pages, count, from + 1)
  }

  function FirstFit(pages: seq<bool>, count: nat): (r: Option<nat>)
    ensures r.Some? ==> FreeRun(pages, r.value, count)
    ensures r.Some? ==> forall s :: 0 <= s < r.value ==> !FreeRun(pages, s, count)
    ensures r.None? ==> forall s :: 0 <= s <= |pages| ==> !FreeRun(pages, s, count)
  {
    LeastRun(pages, count, 0)
  }

  lemma FirstFitIs(pages: seq<bool>, count: nat, s: nat)
    requires FreeRun(pages, s, count)
    requires forall t :: 0 <= t < s ==> !FreeRun(pages, t, count)
    ensures FirstFit(pages, count) == Some(s)
  {
  }

  lemma NoFit(pages: seq<bool>, count: nat)
    requires forall s :: 0 <= s <= |pages| ==> !FreeRun(pages, s, count)
    ensures FirstFit(pages, count) == None
  {
  }

  /** After looking at i pages: the last `run` of them are free, the one before is not, and no run of `count` was seen. */
  ghost predicate Scanned(pages: seq<bool>, i: nat, run: nat, count: nat) {
    && run <= i <= |pages| && run < count
    && (forall k :: i - run <= k < i ==> !pages[k])
    && (run < i ==> pages[i - run - 1])
    && (forall s :: 0 <= s <= i - count ==> !FreeRun(pages, s, count))
  }

  lemma ScanNext(pages: seq<bool>, i: nat, run: nat, count: nat)
    requires Scanned(pages, i, run, count) && i < |pages|
    ensures pages[i] ==> Scanned(pages, i + 1, 0, count)
    ensures !pages[i] && run + 1 < count ==> Scanned(pages, i + 1, run + 1, count)
    ensures !pages[i] && run + 1 == count ==> FirstFit(pages, count) == Some(i - run)
  {
    if !pages[i] && run + 1 == count {
      FirstFitIs(pages, count, i - run);
    }
  }

  lemma ScanEnd(pages: seq<bool>, run: nat, count: nat)
    requires Scanned(pages, |pages|, run, count)
    ensures FirstFit(pages, count) == None
  {
    NoFit(pages, count);
  }

  lemma FirstFree(pages: seq<bool>, s: nat)
    requires s < |pages| && !pages[s] && forall k :: 0 <= k < s ==> pages[k]
    ensures FirstFit(pages, 1) == Some(s)
  {
    forall t | 0 <= t < s
      ensures !FreeRun(pages, t, 1)
    {
      assert pages[t];
    }
    FirstFitIs(pages, 1, s);
  }

  lemma NoneFree(pages: seq<bool>)
    requires forall k :: 0 <= k < |pages| ==> pages[k]
    ensures FirstFit(pages, 1) == None
  {
    forall s | 0 <= s <= |pages|
      ensures !FreeRun(pages, s, 1)
    {
      assert s < |pages| ==> pages[s];
    }
    NoFit(pages, 1);
  }

  lemma FlipIsRange(pages: seq<bool>, k: nat, flag: bool)
    requires k < |pages|
    ensures pages[k := flag] == WithRange(pages, k, 1, flag)
  {
  }

  // --------------------------------------------------------------- counting

  /** Number of free pages among the first k. */
  function CountTo(pages: seq<bool>, k: nat): nat
    requires k <= |pages|
  {
    if k == 0 then 0 else CountTo(pages, k - 1) + (if pages[k - 1] then 0 else 1)
  }

  function FreeCount(pages: seq<bool>): nat {
    CountTo(pages, |pages|)
  }

  function FreePages(pages: seq<bool>): set<nat> {
    set k: nat | k < |pages| && !pages[k]
  }

  function FreeBelow(pages: seq<bool>, n: nat): set<nat>
    requires n <= |pages|
  {
    set k: nat | k < n && !pages[k]
  }

  lemma {:induction false} CountToIs(pages: seq<bool>, n: nat)
    requires n <= |pages|
    ensures CountTo(pages, n) == |FreeBelow(pages, n)|
  {
    if n == 0 {
      assert FreeBelow(pages, 0) == {};
    } else {
      CountToIs(pages, n - 1);
      assert FreeBelow(pages, n) == FreeBelow(pages, n - 1) + (if pages[n - 1] then {} else {n - 1});
    }
  }

  /** The count is the number of free pages; it is 0 exactly when every page is in use. */
  lemma {:induction false} FreeCountIs(pages: seq<bool>)
    ensures FreeCount(pages) == |FreePages(pages)|
    ensures FreeCount(pages) == 0 <==> forall k :: 0 <= k < |pages| ==> pages[k]
  {
    CountToIs(pages, |pages|);
    assert FreeBelow(pages, |pages|) == FreePages(pages);
    if FreeCount(pages) == 0 {
      forall k | 0 <= k < |pages|
        ensures pages[k]
      {
        assert k !in FreePages(pages);
      }
    } else {
      var k :| k in FreePages(pages);
    }
  }

  /** `total` is the size of the free pages among the first k. */
  ghost predicate Counted(pages: seq<bool>, k: nat, total: nat) {
    k <= |pages| && total == PAGE_SIZE * CountTo(pages, k)
  }

  lemma {:induction false} CountedNext(pages: seq<bool>, k: nat, total: nat)
    requires Counted(pages, k, total) && k < |pages|
    ensures Counted(pages, k + 1, total + (if pages[k] then 0 else PAGE_SIZE))
  {
  }

  lemma {:induction false} CountAfterFlip(pages: seq<bool>, k: nat, flag: bool, n: nat)
    requires k < |pages| && pages[k] != flag && n <= |pages|
    ensures CountTo(pages[k := flag], n) == CountTo(pages, n) + (if k >= n then 0 else if flag then -1 else 1)
  {
    if n > 0 {
      CountAfterFlip(pages, k, flag, n - 1);
    }
  }

  lemma RangeStep(pages: seq<bool>, start: nat, count: nat, flag: bool)
    requires start + count < |pages|
    ensures WithRange(pages, start, count + 1, flag) == WithRange(pages, start, count, flag)[start + count := flag]
  {
  }

  /** Marking a free run used, or a used run free, moves exactly that many pages. */
  lemma {:induction false} CountAfterRange(pages: seq<bool>, start: nat, count: nat, flag: bool)
    requires start + count <= |pages|
    requires forall k :: start <= k < start + count ==> pages[k] != flag
    ensures FreeCount(WithRange(pages, start, count, flag)) == FreeCount(pages) + (if flag then 0 - count else count)
    decreases count
  {
    if count == 0 {
      assert WithRange(pages, start, 0, flag) == pages;
    } else {
      CountAfterRange(pages, start, count - 1, flag);
      RangeStep(pages, start, count - 1, flag);
      CountAfterFlip(WithRange(pages, start, count - 1, flag), start + count - 1, flag, |pages|);
    }
  }
}
