/**
  Kernel stacks and the first frame of a new thread.  Stacks are page blocks; the frame is
  eight words below the top of the block, laid out for the context switch to pop.
 */
module KernelStacks {
  import opened Machine
  import opened Bits
  import opened PageMap
  import opened Allocation
  import opened AllocatorRuns
  import PageAllocator

  const DEFAULT_STACK_SIZE: nat := 16 * 1024

  function StackBytes(bytes: nat): nat {
    if bytes == 0 then DEFAULT_STACK_SIZE else bytes
  }

  class KernelStack {
    var Base: nat
    var Size: nat

    constructor ()
      ensures Base == 0 && Size == 0
    {
      Base, Size := 0, 0;
    }

    function Top(): nat
      reads this
    {
      Base + Size
    }

    method Allocate(a: PageAllocator.EarlyPageAllocator, bytes: nat) returns (ok: bool)
      requires a.Valid() && bytes < SIZE_LIMIT
      modifies this, a.Bitmap
      ensures a.Neighbour() == old(a.Neighbour())
      ensures
        var o := Allocation.Allocate(old(a.Pages()), old(a.Neighbour()), PagesFor(StackBytes(bytes)));
        && ok == (o.addr != 0) && a.Pages() == o.pages
        && Base == (if ok then o.addr else old(Base))
        && Size == (if ok then PagesFor(StackBytes(bytes)) * PAGE_SIZE else old(Size))
    {
      var size := if bytes == 0 then DEFAULT_STACK_SIZE else bytes;
      var mem := a.AllocatePageSized(size);
      if mem == 0 {
        return false;
      }
      Base := mem;
      Size := (if size % PAGE_SIZE != 0 then size / PAGE_SIZE + 1 else size / PAGE_SIZE) * PAGE_SIZE;
      return true;
    }

    method Free(a: PageAllocator.EarlyPageAllocator)
      requires a.Valid() && Base < SIZE_LIMIT && Size < SIZE_LIMIT
      modifies a.Bitmap
      ensures a.Pages() == WithRange(old(a.Pages()), Base / PAGE_SIZE, PagesFor(Size), false) && a.Neighbour() == old(a.Neighbour())
    {
      a.FreePageSized(Base, Size);
    }
  }

  /** Allocating a stack of any size and freeing it again restores the page map, whatever lies behind the bitmap. */
  lemma {:induction false} StackRoundTrip(pages: seq<bool>, neighbour: Byte, bytes: nat)
    requires Allocate(pages, neighbour, PagesFor(StackBytes(bytes))).addr != 0
    ensures
      var o := Allocate(pages, neighbour, PagesFor(StackBytes(bytes)));
      Free(o.pages, o.addr, PagesFor(PagesFor(StackBytes(bytes)) * PAGE_SIZE)) == pages
  {
    PagesForRoundsUp(StackBytes(bytes));
    AllocateFreeInverse(pages, neighbour, PagesFor(StackBytes(bytes)));
  }

  // -------------------------------------------------------------- first frame

  const WORD: nat := 8
  const TRAMPOLINE: nat := 0xFFFF_8000_0000_1000   // stands for the address of ThreadStartTrampoline

  /** Physical memory by 8-byte word address. */
  class Memory {
    var Words: map<nat, nat>

    method Store(addr: nat, v: nat)
      modifies this
      ensures Words == old(Words)[addr := v]
    {
      Words := Words[addr := v];
    }

    method Push(sp: nat, v: nat) returns (sp': nat)
      requires sp >= WORD
      modifies this
      ensures sp' == sp - WORD && Words == old(Words)[sp' := v]
    {
      sp' := sp - WORD;
      Words := Words[sp' := v];
    }

    method PushFour(sp: nat, a: nat, b: nat, c: nat, d: nat) returns (sp': nat)
      requires sp >= 4 * WORD
      modifies this
      ensures sp' == sp - 4 * WORD && Words == old(Words) + Four(sp, a, b, c, d)
    {
      sp' := Push(sp, a);
      sp' := Push(sp', b);
      sp' := Push(sp', c);
      sp' := Push(sp', d);
    }

    /** Writes the eight words of the first frame below `top`, as eight pushes. */
    method PrepareInitialStack(top: nat) returns (sp: nat)
      requires top >= 8 * WORD
      modifies this
      ensures sp == top - 8 * WORD && Words == old(Words) + Frame(top)
    {
      sp := PushFour(top, 0, TRAMPOLINE, 0, 0);
      sp := PushFour(sp, 0, 0, 0, 0);
    }
  }

  function Four(sp: nat, a: nat, b: nat, c: nat, d: nat): map<nat, nat>
    requires sp >= 4 * WORD
  {
    map[sp - 8 := a, sp - 16 := b, sp - 24 := c, sp - 32 := d]
  }

  /** The first frame: a zero word, the trampoline's address and six zero words, downwards. */
  function Frame(top: nat): map<nat, nat>
    requires top >= 8 * WORD
  {
    Four(top, 0, TRAMPOLINE, 0, 0) + Four(top - 4 * WORD, 0, 0, 0, 0)
  }

  /** The trampoline's address is 48 bytes above the new stack pointer, between zeros; nothing else is written. */
  lemma {:induction false} FrameWords(top: nat, a: nat)
    requires top >= 8 * WORD
    ensures a in Frame(top) <==> top - 64 <= a < top && (top - a) % 8 == 0
    ensures a in Frame(top) ==> Frame(top)[a] == if a == (top - 64) + 48 then TRAMPOLINE else 0
  {
  }

  /** What the context switch takes from a stack: six saved registers and a return address. */
  datatype Resumed = Resumed(registers: seq<nat>, rip: nat, rsp: nat)

  predicate Poppable(words: map<nat, nat>, rsp: nat) {
    forall k :: 0 <= k < 7 ==> rsp + k * WORD in words
  }

  function SwitchIn(words: map<nat, nat>, rsp: nat): Resumed
    requires Poppable(words, rsp)
  {
    Resumed(seq(6, k requires 0 <= k < 6 => words[rsp + k * WORD]), words[rsp + 6 * WORD], rsp + 7 * WORD)
  }
}
