/**
  First-fit allocation on the page map.  The contiguous search reads one byte past the end
  of the bitmap; that neighbour byte is part of the model.
 */
module Allocation {
  import opened Bits
  import opened PageMap

  /** The bits the contiguous search looks at: the page map and the neighbour byte behind it. */
  function Extended(pages: seq<bool>, neighbour: Byte): (r: seq<bool>)
    ensures |r| == |pages| + CHAR_BIT
  {
    pages + Flat([neighbour])
  }

  function FindAddress(pages: seq<bool>, neighbour: Byte, count: nat): nat {
    if count == 0 then 0
    else
      match FirstFit(Extended(pages, neighbour), count)
      case None => 0
      case Some(s) => s * PAGE_SIZE
  }

  datatype Outcome = Outcome(addr: nat, pages: seq<bool>)

  /** The effect of AllocatePage on a request of `count` pages; address 0 is the null pointer. */
  function Allocate(pages: seq<bool>, neighbour: Byte, count: nat): (o: Outcome)
    ensures o.addr % PAGE_SIZE == 0
  {
    if count == 1 then
      match FirstFit(pages, 1)
      case None => Outcome(0, pages)
      case Some(s) => Outcome(s * PAGE_SIZE, pages[s := true])
    else
      var addr := FindAddress(pages, neighbour, count);
      if addr == 0 then Outcome(0, pages)
      else Outcome(addr, WithRange(pages, addr / PAGE_SIZE, count, true))
  }

  function Free(pages: seq<bool>, addr: nat, count: nat): seq<bool> {
    WithRange(pages, addr / PAGE_SIZE, count, false)
  }

  // ------------------------------------------------------------- soundness

  /**
    What a caller relies on: a non-null result is the lowest run of free pages, now all
    marked used and nothing else changed; null means that no such run exists.
   */
  ghost predicate Sound(pages: seq<bool>, count: nat, o: Outcome) {
    if o.addr == 0 then
      o.pages == pages && forall s :: 0 <= s <= |pages| ==> !FreeRun(pages, s, count)
    else
      && o.addr % PAGE_SIZE == 0
      && FreeRun(pages, o.addr / PAGE_SIZE, count)
      && (forall s :: 0 <= s < o.addr / PAGE_SIZE ==> !FreeRun(pages, s, count))
      && o.pages == WithRange(pages, o.addr / PAGE_SIZE, count, true)
  }

  lemma RunInExtended(pages: seq<bool>, neighbour: Byte, s: nat, count: nat)
    requires s + count <= |pages|
    ensures FreeRun(Extended(pages, neighbour), s, count) <==> FreeRun(pages, s, count)
  {
    var e := Extended(pages, neighbour);
    assert forall k :: 0 <= k < |pages| ==> e[k] == pages[k];
  }

  ghost predicate HasRun(pages: seq<bool>, count: nat) {
    exists s :: 0 <= s <= |pages| && FreeRun(pages, s, count)
  }

  lemma FirstFitSome(pages: seq<bool>, count: nat)
    ensures FirstFit(pages, count).Some? <==> HasRun(pages, count)
  {
    if FirstFit(pages, count).Some? {
      assert FreeRun(pages, FirstFit(pages, count).value, count);
    }
  }

  /** A search that stays inside the page map finds the page map's own first fit. */
  lemma SearchInside(pages: seq<bool>, neighbour: Byte, count: nat)
    requires HasRun(pages, count)
    ensures FirstFit(Extended(pages, neighbour), count) == FirstFit(pages, count)
  {
    FirstFitSome(pages, count);
    var s := FirstFit(pages, count).value;
    RunInExtended(pages, neighbour, s, count);
    forall t | 0 <= t < s
      ensures !FreeRun(Extended(pages, neighbour), t, count)
    {
      RunInExtended(pages, neighbour, t, count);
    }
    FirstFitIs(Extended(pages, neighbour), count, s);
  }

  /** Whatever the neighbour byte, a non-null result was free as far as it lies in the map and is marked as a range. */
  lemma AllocateMarks(pages: seq<bool>, neighbour: Byte, count: nat)
    requires Allocate(pages, neighbour, count).addr != 0
    ensures
      var o := Allocate(pages, neighbour, count);
      var s := o.addr / PAGE_SIZE;
      && count >= 1 && s >= 1 && o.addr == s * PAGE_SIZE
      && o.pages == WithRange(pages, s, count, true)
      && (s + count <= |pages| ==> FreeRun(pages, s, count))
  {
    var o := Allocate(pages, neighbour, count);
    if count == 1 {
      FlipIsRange(pages, o.addr / PAGE_SIZE, true);
    } else if o.addr / PAGE_SIZE + count <= |pages| {
      RunInExtended(pages, neighbour, o.addr / PAGE_SIZE, count);
    }
  }

  /** The bits that an allocation of `count` pages looks at. */
  function Searched(pages: seq<bool>, neighbour: Byte, count: nat): seq<bool> {
    if count == 1 then pages else Extended(pages, neighbour)
  }

  /** The lowest run of `count` free pages starts at page e. */
  ghost predicate LowestRunAt(pages: seq<bool>, e: nat, count: nat) {
    FreeRun(pages, e, count) && forall s :: 0 <= s < e ==> !FreeRun(pages, s, count)
  }

  /** Where an allocation lands, in terms of the page map before it. */
  lemma AllocateAt(pages: seq<bool>, neighbour: Byte, count: nat, e: nat)
    requires count >= 1 && e >= 1
    ensures Allocate(pages, neighbour, count).addr == e * PAGE_SIZE <==> LowestRunAt(Searched(pages, neighbour, count), e, count)
  {
    var bits := Searched(pages, neighbour, count);
    if LowestRunAt(bits, e, count) {
      FirstFitIs(bits, count, e);
    }
  }

  lemma SoundSingle(pages: seq<bool>, neighbour: Byte)
    requires |pages| > 0 && pages[0]
    ensures Sound(pages, 1, Allocate(pages, neighbour, 1))
  {
    if FirstFit(pages, 1).Some? {
      FlipIsRange(pages, FirstFit(pages, 1).value, true);
    }
  }

  lemma SoundInside(pages: seq<bool>, neighbour: Byte, count: nat)
    requires |pages| > 0 && pages[0] && count >= 2 && HasRun(pages, count)
    ensures Sound(pages, count, Allocate(pages, neighbour, count))
  {
    SearchInside(pages, neighbour, count);
    FirstFitSome(pages, count);
  }

  lemma SoundNowhere(pages: seq<bool>, neighbour: Byte, count: nat)
    requires count >= 2 && !HasRun(Extended(pages, neighbour), count)
    ensures Sound(pages, count, Allocate(pages, neighbour, count))
  {
    FirstFitSome(Extended(pages, neighbour), count);
    forall s | 0 <= s <= |pages|
      ensures !FreeRun(pages, s, count)
    {
      if s + count <= |pages| {
        RunInExtended(pages, neighbour, s, count);
      }
    }
  }

  lemma UnsoundBeyond(pages: seq<bool>, neighbour: Byte, count: nat)
    requires |pages| > 0 && pages[0] && count >= 2
    requires !HasRun(pages, count) && HasRun(Extended(pages, neighbour), count)
    ensures !Sound(pages, count, Allocate(pages, neighbour, count))
  {
    FirstFitSome(Extended(pages, neighbour), count);
    var s := FirstFit(Extended(pages, neighbour), count).value;
    assert Extended(pages, neighbour)[0];
    assert s > 0;
    if FreeRun(pages, s, count) {
      assert HasRun(pages, count);
    }
  }

  /** One page is asked for, or the map itself has a run, or not even the neighbour byte completes one. */
  ghost predicate Servable(pages: seq<bool>, neighbour: Byte, count: nat) {
    count == 1 || HasRun(pages, count) || !HasRun(Extended(pages, neighbour), count)
  }

  /**
    Exactly when one allocation is sound, given that page 0 is in use.
   */
  lemma SoundExactly(pages: seq<bool>, neighbour: Byte, count: nat)
    requires |pages| > 0 && pages[0] && count >= 1
    ensures Sound(pages, count, Allocate(pages, neighbour, count)) <==> Servable(pages, neighbour, count)
  {
    if count == 1 {
      SoundSingle(pages, neighbour);
    } else if HasRun(pages, count) {
      SoundInside(pages, neighbour, count);
    } else if !HasRun(Extended(pages, neighbour), count) {
      SoundNowhere(pages, neighbour, count);
    } else {
      UnsoundBeyond(pages, neighbour, count);
    }
  }

  // ------------------------------------------------------- the neighbour byte

  /** Bit 0 is set and no two adjacent bits are clear. */
  predicate SafeNeighbour(neighbour: Byte) {
    && Bit(neighbour, 0)
    && forall j :: 0 <= j < CHAR_BIT - 1 ==> Bit(neighbour, j) || Bit(neighbour, j + 1)
  }

  lemma NeighbourBit(pages: seq<bool>, neighbour: Byte, j: nat)
    requires j < CHAR_BIT
    ensures Extended(pages, neighbour)[|pages| + j] == Bit(neighbour, j)
  {
    assert Flat([neighbour])[j] == Bit([neighbour][j / CHAR_BIT], j % CHAR_BIT);
  }

  lemma SafeRunEnds(pages: seq<bool>, neighbour: Byte, s: nat, count: nat)
    requires SafeNeighbour(neighbour) && count >= 2 && FreeRun(Extended(pages, neighbour), s, count)
    ensures s + count <= |pages|
  {
    if |pages| < s + count {
      if s < |pages| {
        NeighbourBit(pages, neighbour, 0);
      } else {
        var j := s - |pages|;
        assert j + 2 <= CHAR_BIT;
        NeighbourBit(pages, neighbour, j);
        NeighbourBit(pages, neighbour, j + 1);
      }
    }
  }

  lemma SafeRunsInside(pages: seq<bool>, neighbour: Byte, count: nat)
    requires SafeNeighbour(neighbour) && count >= 2 && HasRun(Extended(pages, neighbour), count)
    ensures HasRun(pages, count)
  {
    var e := Extended(pages, neighbour);
    var s :| 0 <= s <= |e| && FreeRun(e, s, count);
    SafeRunEnds(pages, neighbour, s, count);
    RunInExtended(pages, neighbour, s, count);
  }

  lemma SafeIsSound(pages: seq<bool>, neighbour: Byte, count: nat)
    requires |pages| > 0 && pages[0] && count >= 1 && SafeNeighbour(neighbour)
    ensures Sound(pages, count, Allocate(pages, neighbour, count))
  {
    SoundExactly(pages, neighbour, count);
    if count >= 2 && HasRun(Extended(pages, neighbour), count) {
      SafeRunsInside(pages, neighbour, count);
    }
  }

  /** Every allocation from every page map with page 0 in use is sound. */
  ghost predicate AlwaysSound(neighbour: Byte) {
    forall pages: seq<bool>, count: nat :: |pages| == PAGES && pages[0] && count >= 1 ==>
      Sound(pages, count, Allocate(pages, neighbour, count))
  }

  lemma TwoPageWitness(pages: seq<bool>, neighbour: Byte, start: nat)
    requires |pages| > 0 && pages[0] && FreeRun(Extended(pages, neighbour), start, 2)
    requires forall k :: 0 <= k < |pages| - 1 ==> pages[k]
    ensures !Sound(pages, 2, Allocate(pages, neighbour, 2))
  {
    forall s | 0 <= s <= |pages|
      ensures !FreeRun(pages, s, 2)
    {
      assert s + 2 <= |pages| ==> pages[s];
    }
    SoundExactly(pages, neighbour, 2);
  }

  lemma JoiningRun(pages: seq<bool>, neighbour: Byte)
    requires |pages| > 0 && !pages[|pages| - 1] && !Bit(neighbour, 0)
    ensures FreeRun(Extended(pages, neighbour), |pages| - 1, 2)
  {
    NeighbourBit(pages, neighbour, 0);
  }

  lemma OutsideRun(pages: seq<bool>, neighbour: Byte, j: nat)
    requires j < CHAR_BIT - 1 && !Bit(neighbour, j) && !Bit(neighbour, j + 1)
    ensures FreeRun(Extended(pages, neighbour), |pages| + j, 2)
  {
    NeighbourBit(pages, neighbour, j);
    NeighbourBit(pages, neighbour, j + 1);
  }

  /** Only the last page is free. */
  predicate LastFree(pages: seq<bool>) {
    |pages| >= 2 && forall k :: 0 <= k < |pages| ==> (pages[k] <==> k != |pages| - 1)
  }

  /** An unsafe neighbour makes a two-page allocation from such a map go wrong. */
  lemma UnsafeOn(pages: seq<bool>, neighbour: Byte)
    requires LastFree(pages) && !SafeNeighbour(neighbour)
    ensures !Sound(pages, 2, Allocate(pages, neighbour, 2))
  {
    if !Bit(neighbour, 0) {
      JoiningRun(pages, neighbour);
      TwoPageWitness(pages, neighbour, |pages| - 1);
    } else {
      var j :| 0 <= j < CHAR_BIT - 1 && !(Bit(neighbour, j) || Bit(neighbour, j + 1));
      OutsideRun(pages, neighbour, j);
      TwoPageWitness(pages, neighbour, |pages| + j);
    }
  }

  lemma UnsafeWitness(neighbour: Byte) returns (pages: seq<bool>)
    requires !SafeNeighbour(neighbour)
    ensures |pages| == PAGES && LastFree(pages)
    ensures !Sound(pages, 2, Allocate(pages, neighbour, 2))
  {
    pages := seq(PAGES, k => k != PAGES - 1);
    UnsafeOn(pages, neighbour);
  }

  /** The exact requirement the out-of-bounds read puts on the byte behind the bitmap. */
  lemma NeighbourExactly(neighbour: Byte)
    ensures AlwaysSound(neighbour) <==> SafeNeighbour(neighbour)
  {
    if SafeNeighbour(neighbour) {
      forall pages: seq<bool>, count: nat | |pages| == PAGES && pages[0] && count >= 1
        ensures Sound(pages, count, Allocate(pages, neighbour, count))
      {
        SafeIsSound(pages, neighbour, count);
      }
    } else {
      var pages := UnsafeWitness(neighbour);
      assert !AlwaysSound(neighbour);
    }
  }

  // ------------------------------------------------ the two searches for one page

  predicate AllSet(neighbour: Byte) {
    forall j :: 0 <= j < CHAR_BIT ==> Bit(neighbour, j)
  }

  lemma FullMapExtended(pages: seq<bool>, neighbour: Byte)
    requires !HasRun(pages, 1)
    ensures FirstFit(pages, 1) == None
    ensures forall k :: 0 <= k < |pages| ==> Extended(pages, neighbour)[k]
    ensures HasRun(Extended(pages, neighbour), 1) <==> !AllSet(neighbour)
  {
    var e := Extended(pages, neighbour);
    FirstFitSome(pages, 1);
    forall k | 0 <= k < |pages|
      ensures e[k]
    {
      assert !FreeRun(pages, k, 1);
    }
    if !AllSet(neighbour) {
      var j :| 0 <= j < CHAR_BIT && !Bit(neighbour, j);
      NeighbourBit(pages, neighbour, j);
      assert FreeRun(e, |pages| + j, 1);
    }
    if HasRun(e, 1) {
      var s :| 0 <= s <= |e| && FreeRun(e, s, 1);
      assert !e[s];
      NeighbourBit(pages, neighbour, s - |pages|);
    }
  }

  lemma FullMapFinds(pages: seq<bool>, neighbour: Byte)
    requires |pages| > 0 && !HasRun(pages, 1)
    ensures Allocate(pages, neighbour, 1).addr == 0
    ensures FindAddress(pages, neighbour, 1) == 0 <==> AllSet(neighbour)
  {
    var e := Extended(pages, neighbour);
    FullMapExtended(pages, neighbour);
    FirstFitSome(e, 1);
    if FirstFit(e, 1).Some? {
      assert e[0] && !e[FirstFit(e, 1).value];
    }
  }

  /** For one page the contiguous search and the nested loops agree exactly when a page is free or the neighbour has no clear bit. */
  lemma SearchesAgree(pages: seq<bool>, neighbour: Byte)
    requires |pages| > 0
    ensures FindAddress(pages, neighbour, 1) == Allocate(pages, neighbour, 1).addr <==> HasRun(pages, 1) || AllSet(neighbour)
  {
    if HasRun(pages, 1) {
      SearchInside(pages, neighbour, 1);
    } else {
      FullMapFinds(pages, neighbour);
    }
  }

  /** A full map in front of a safe neighbour with one clear bit: only the contiguous search returns an address. */
  lemma SearchesDiffer(pages: seq<bool>)
    requires |pages| == PAGES && forall k :: 0 <= k < PAGES ==> pages[k]
    ensures SafeNeighbour(0xFD)
    ensures Allocate(pages, 0xFD, 1).addr == 0 && FindAddress(pages, 0xFD, 1) != 0
  {
    assert !Bit(0xFD, 1);
    forall s | 0 <= s <= |pages|
      ensures !FreeRun(pages, s, 1)
    {
      assert s < |pages| ==> pages[s];
    }
    FullMapFinds(pages, 0xFD);
  }
}
