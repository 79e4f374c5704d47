/**
  Threads, their stacks and operator new in one memory: any number of thread creations,
  allocations and frees, in any order, between writes of running threads to their stacks and
  of other owners to their blocks.
 */
module StackRuns {
  import opened Sequences
  import opened Bits
  import opened PageMap
  import opened Allocation
  import opened AllocatorRuns
  import opened KernelStacks
  import BootMemory

  /** started: the first switch to the thread has taken place. */
  datatype Spawned = Spawned(stack: Block, rsp: nat, started: bool)

  function TopOf(b: Block): nat {
    (b.start + b.count) * PAGE_SIZE
  }

  datatype World = World(heap: Heap, words: map<nat, nat>, threads: seq<Spawned>)

  /**
    New: operator new.  Spawn: CreateKernel, which allocates the thread object with operator
    new and then its stack.  Each allocation comes with the byte it finds behind the bitmap.
    Discard: free of a live block that is no thread's stack.  Start: the first switch to a
    thread.  StackWrite: a thread that runs writes a word of its own stack.  ObjectWrite:
    whoever owns a live block that is no stack writes a word of it.
   */
  datatype Event =
    | New(bytes: nat, neighbour: Byte)
    | Spawn(objectBytes: nat, objectNeighbour: Byte, stackBytes: nat, stackNeighbour: Byte)
    | Discard(index: nat)
    | Start(thread: nat)
    | StackWrite(thread: nat, addr: nat, value: nat)
    | ObjectWrite(index: nat, addr: nat, value: nat)

  /** The header operator new stores: the letters KMEM and a 32-bit page count. */
  function Header(count: nat): nat {
    0x4D45_4D4B + (count % 0x1_0000_0000) * 0x1_0000_0000
  }

  /** In memory, lowest byte first: K, M, E, M and the page count as long as it fits 32 bits. */
  lemma {:induction false} HeaderBytes(count: nat)
    ensures
      var low := Header(count) % 0x1_0000_0000;
      && low % 0x100 == 'K' as nat && low / 0x100 % 0x100 == 'M' as nat
      && low / 0x1_0000 % 0x100 == 'E' as nat && low / 0x100_0000 == 'M' as nat
    ensures Header(count) / 0x1_0000_0000 == count % 0x1_0000_0000
  {
  }

  function AddressFor(h: Heap, neighbour: Byte, bytes: nat): (addr: nat)
    ensures addr % PAGE_SIZE == 0
  {
    Allocate(h.pages, neighbour, PagesFor(bytes)).addr
  }

  /** The header goes into the word before the block, that is, into the preceding page. */
  function NewStep(w: World, neighbour: Byte, bytes: nat): World {
    var addr := AddressFor(w.heap, neighbour, bytes + WORD);
    var heap := Step(w.heap, Acquire(bytes + WORD, neighbour));
    if addr == 0 then w.(heap := heap)
    else w.(heap := heap, words := w.words[addr - WORD := Header(PagesFor(bytes + WORD))])
  }

  function StackStep(w: World, neighbour: Byte, bytes: nat): World {
    var size := StackBytes(bytes);
    var addr := AddressFor(w.heap, neighbour, size);
    var heap := Step(w.heap, Acquire(size, neighbour));
    if addr == 0 then w.(heap := heap)
    else
      var block := Block(addr / PAGE_SIZE, PagesFor(size));
      World(heap, w.words + Frame(TopOf(block)), w.threads + [Fresh(block)])
  }

  /** A thread as CreateKernel leaves it. */
  function Fresh(b: Block): Spawned
    requires b.count >= 1 || b.start >= 1
  {
    Spawned(b, TopOf(b) - 8 * WORD, false)
  }

  /** An allocation by operator new, spelled out. */
  lemma {:induction false} NewStepIs(w: World, neighbour: Byte, bytes: nat)
    ensures
      var n := PagesFor(bytes + WORD);
      var o := Allocate(w.heap.pages, neighbour, n);
      NewStep(w, neighbour, bytes) ==
      if o.addr == 0 then World(Heap(o.pages, w.heap.live), w.words, w.threads)
      else World(Heap(o.pages, w.heap.live + [Block(o.addr / PAGE_SIZE, n)]), w.words[o.addr - WORD := Header(n)], w.threads)
  {
  }

  predicate IsStack(threads: seq<Spawned>, b: Block) {
    exists i :: 0 <= i < |threads| && threads[i].stack == b
  }

  /** When operator new finds no memory the kernel panics, so the creation goes no further. */
  function SpawnStep(w: World, objectNeighbour: Byte, objectBytes: nat, stackNeighbour: Byte, stackBytes: nat): World {
    var made := NewStep(w, objectNeighbour, objectBytes);
    if AddressFor(w.heap, objectNeighbour, objectBytes + WORD) == 0 then made else StackStep(made, stackNeighbour, stackBytes)
  }

  predicate WordOf(b: Block, addr: nat) {
    b.Has(addr / PAGE_SIZE) && addr % WORD == 0
  }

  predicate MayFree(w: World, i: nat) {
    i < |w.heap.live| && !IsStack(w.threads, w.heap.live[i])
  }

  predicate MayWriteStack(w: World, t: nat, addr: nat) {
    t < |w.threads| && w.threads[t].started && WordOf(w.threads[t].stack, addr)
  }

  predicate MayWriteObject(w: World, i: nat, addr: nat) {
    MayFree(w, i) && WordOf(w.heap.live[i], addr)
  }

  function Started(threads: seq<Spawned>, t: nat): seq<Spawned>
    requires t < |threads|
  {
    threads[t := threads[t].(started := true)]
  }

  /** An event that its guard does not allow changes nothing. */
  function WorldStep(w: World, e: Event): World {
    match e
    case New(bytes, n) => NewStep(w, n, bytes)
    case Spawn(objectBytes, n, stackBytes, n') => SpawnStep(w, n, objectBytes, n', stackBytes)
    case Discard(i) => if MayFree(w, i) then w.(heap := Step(w.heap, Release(i))) else w
    case Start(t) => if t < |w.threads| then w.(threads := Started(w.threads, t)) else w
    case StackWrite(t, addr, v) => if MayWriteStack(w, t, addr) then w.(words := w.words[addr := v]) else w
    case ObjectWrite(i, addr, v) => if MayWriteObject(w, i, addr) then w.(words := w.words[addr := v]) else w
  }

  function Build(start: seq<bool>, words: map<nat, nat>, run: seq<Event>): World
    decreases |run|
  {
    if run == [] then World(Heap(start, []), words, [])
    else WorldStep(Build(start, words, run[..|run| - 1]), run[|run| - 1])
  }

  function BytesSeen(e: Event): set<Byte> {
    match e
    case New(_, n) => {n}
    case Spawn(_, n, _, n') => {n, n'}
    case _ => {}
  }

  /** The only bytes that allocations of the run find behind the bitmap. */
  predicate EventsSee(run: seq<Event>, bytes: set<Byte>) {
    forall i :: 0 <= i < |run| ==> BytesSeen(run[i]) <= bytes
  }

  predicate SafeEvents(run: seq<Event>) {
    forall i :: 0 <= i < |run| ==> AllSafe(BytesSeen(run[i]))
  }

  // ------------------------------------------------------------- first frames

  /** The seven words the context switch will pop are as PrepareInitialStack left them. */
  ghost predicate Intact(words: map<nat, nat>, t: Spawned) {
    && t.stack.count >= 1
    && t.rsp == TopOf(t.stack) - 8 * WORD
    && forall k :: 0 <= k < 7 ==>
         t.rsp + k * WORD in words && words[t.rsp + k * WORD] == if k == 6 then TRAMPOLINE else 0
  }

  /** Every thread that has not started is ready for its first switch. */
  ghost predicate AllReady(words: map<nat, nat>, threads: seq<Spawned>) {
    forall i :: 0 <= i < |threads| && !threads[i].started ==> Intact(words, threads[i])
  }

  ghost predicate AllLive(live: seq<Block>, threads: seq<Spawned>) {
    forall i :: 0 <= i < |threads| ==> threads[i].stack in live
  }

  ghost predicate StacksDiffer(threads: seq<Spawned>) {
    forall i, j :: 0 <= i < j < |threads| ==> threads[i].stack != threads[j].stack
  }

  /** A header never lands on the seven words: it sits in the last word of a page. */
  lemma {:induction false} HeaderMissesFrame(words: map<nat, nat>, t: Spawned, page: nat, v: nat)
    requires Intact(words, t) && page >= 1
    ensures Intact(words[page * PAGE_SIZE - WORD := v], t)
  {
  }

  lemma {:induction false} HeaderMissesAll(words: map<nat, nat>, threads: seq<Spawned>, page: nat, v: nat)
    requires page >= 1 && AllReady(words, threads)
    ensures AllReady(words[page * PAGE_SIZE - WORD := v], threads)
  {
    forall i | 0 <= i < |threads| && !threads[i].started
      ensures Intact(words[page * PAGE_SIZE - WORD := v], threads[i])
    {
      HeaderMissesFrame(words, threads[i], page, v);
    }
  }

  lemma {:induction false} FreshFrame(words: map<nat, nat>, b: Block)
    requires b.count >= 1
    ensures Intact(words + Frame(TopOf(b)), Fresh(b))
  {
  }

  /** A first frame for a stack with the same top writes the same words, and any other lies elsewhere. */
  lemma {:induction false} FrameKeepsFrame(words: map<nat, nat>, t: Spawned, b: Block)
    requires Intact(words, t) && b.count >= 1
    ensures Intact(words + Frame(TopOf(b)), t)
  {
    if TopOf(b) == TopOf(t.stack) {
      FreshFrame(words, b);
    } else {
      FramesApart(TopOf(b), t);
    }
  }

  lemma {:induction false} TopsApart(a: nat, b: nat)
    requires a % PAGE_SIZE == 0 && b % PAGE_SIZE == 0 && a != b
    ensures a + PAGE_SIZE <= b || b + PAGE_SIZE <= a
  {
  }

  lemma {:induction false} FramesApart(top: nat, t: Spawned)
    requires top >= 8 * WORD && top % PAGE_SIZE == 0 && t.stack.count >= 1 && top != TopOf(t.stack)
    requires t.rsp == TopOf(t.stack) - 8 * WORD
    ensures forall k :: 0 <= k < 7 ==> t.rsp + k * WORD !in Frame(top)
  {
    var other := TopOf(t.stack);
    TopsApart(top, other);
    forall k | 0 <= k < 7
      ensures t.rsp + k * WORD !in Frame(top)
    {
      assert other - 8 * WORD <= t.rsp + k * WORD < other;
      FrameWords(top, t.rsp + k * WORD);
    }
  }

  lemma {:induction false} FrameKeepsAll(words: map<nat, nat>, threads: seq<Spawned>, b: Block)
    requires b.count >= 1 && AllReady(words, threads)
    ensures AllReady(words + Frame(TopOf(b)), threads + [Fresh(b)])
  {
    FreshFrame(words, b);
    forall i | 0 <= i < |threads| && !threads[i].started
      ensures Intact(words + Frame(TopOf(b)), threads[i])
    {
      FrameKeepsFrame(words, threads[i], b);
    }
  }

  // ----------------------------------------------------------------- invariant

  /** Stacks are distinct live blocks, blocks are disjoint and inside the map, and unstarted threads are ready. */
  ghost predicate WorldInv(start: seq<bool>, w: World) {
    && Inv(start, w.heap)
    && AllLive(w.heap.live, w.threads) && StacksDiffer(w.threads)
    && AllReady(w.words, w.threads)
  }

  /** Two live blocks that are not the same share no page. */
  lemma {:induction false} BlocksApart(start: seq<bool>, h: Heap, c: Block, d: Block, page: nat)
    requires Inv(start, h) && c in h.live && d in h.live && c != d && c.Has(page)
    ensures !d.Has(page)
  {
    var i :| 0 <= i < |h.live| && h.live[i] == c;
    var j :| 0 <= j < |h.live| && h.live[j] == d;
    assert h.live[i].Fits(|start|) && h.live[j].Fits(|start|);
  }

  /** The owner of one block writes none of the words that wait on another block. */
  lemma {:induction false} WriteMissesFrame(start: seq<bool>, w: World, c: Block, t: Spawned, a: nat, v: nat)
    requires Inv(start, w.heap) && c in w.heap.live && t.stack in w.heap.live && c != t.stack && c.Has(a / PAGE_SIZE)
    requires Intact(w.words, t)
    ensures Intact(w.words[a := v], t)
  {
    BlocksApart(start, w.heap, c, t.stack, a / PAGE_SIZE);
    forall k | 0 <= k < 7
      ensures t.rsp + k * WORD != a
    {
      assert t.stack.Has((t.rsp + k * WORD) / PAGE_SIZE);
    }
  }

  /** A write to a block that is the stack of no unstarted thread leaves all unstarted threads ready. */
  lemma {:induction false} WriteKeeps(start: seq<bool>, w: World, c: Block, a: nat, v: nat)
    requires WorldInv(start, w) && c in w.heap.live && c.Has(a / PAGE_SIZE)
    requires forall i :: 0 <= i < |w.threads| && !w.threads[i].started ==> w.threads[i].stack != c
    ensures WorldInv(start, w.(words := w.words[a := v]))
  {
    forall i | 0 <= i < |w.threads| && !w.threads[i].started
      ensures Intact(w.words[a := v], w.threads[i])
    {
      WriteMissesFrame(start, w, c, w.threads[i], a, v);
    }
  }

  lemma {:induction false} StackWriteKeeps(start: seq<bool>, w: World, t: nat, a: nat, v: nat)
    requires WorldInv(start, w) && MayWriteStack(w, t, a)
    ensures WorldInv(start, w.(words := w.words[a := v]))
  {
    forall i | 0 <= i < |w.threads| && !w.threads[i].started
      ensures w.threads[i].stack != w.threads[t].stack
    {
      assert i != t;
      assert i < t ==> w.threads[i].stack != w.threads[t].stack;
    }
    WriteKeeps(start, w, w.threads[t].stack, a, v);
  }

  lemma {:induction false} NewHeap(w: World, neighbour: Byte, bytes: nat)
    ensures NewStep(w, neighbour, bytes).heap == Step(w.heap, Acquire(bytes + WORD, neighbour))
    ensures NewStep(w, neighbour, bytes).threads == w.threads
  {
  }

  lemma {:induction false} NewReady(w: World, neighbour: Byte, bytes: nat)
    requires AllReady(w.words, w.threads)
    ensures AllReady(NewStep(w, neighbour, bytes).words, w.threads)
  {
    var count := PagesFor(bytes + WORD);
    if AddressFor(w.heap, neighbour, bytes + WORD) != 0 {
      AllocateMarks(w.heap.pages, neighbour, count);
      HeaderMissesAll(w.words, w.threads, AddressFor(w.heap, neighbour, bytes + WORD) / PAGE_SIZE, Header(count));
    }
  }

  lemma {:induction false} GrowsLive(h: Heap, bytes: nat, neighbour: Byte, threads: seq<Spawned>)
    requires AllLive(h.live, threads)
    ensures AllLive(Step(h, Acquire(bytes, neighbour)).live, threads)
  {
  }

  lemma {:induction false} NewKeeps(start: seq<bool>, w: World, neighbour: Byte, bytes: nat)
    requires WorldInv(start, w) && |start| > 0 && start[0] && SafeNeighbour(neighbour)
    ensures WorldInv(start, NewStep(w, neighbour, bytes))
  {
    InvStep(start, w.heap, Acquire(bytes + WORD, neighbour));
    NewHeap(w, neighbour, bytes);
    NewReady(w, neighbour, bytes);
    GrowsLive(w.heap, bytes + WORD, neighbour, w.threads);
  }

  /** Where StackStep puts the stack, if anywhere. */
  function NewStack(w: World, neighbour: Byte, bytes: nat): Block {
    Block(AddressFor(w.heap, neighbour, StackBytes(bytes)) / PAGE_SIZE, PagesFor(StackBytes(bytes)))
  }

  lemma {:induction false} StackStepIs(w: World, neighbour: Byte, bytes: nat)
    ensures
      var size, b := StackBytes(bytes), NewStack(w, neighbour, bytes);
      var heap := Step(w.heap, Acquire(size, neighbour));
      if AddressFor(w.heap, neighbour, size) == 0 then StackStep(w, neighbour, bytes) == w.(heap := heap)
      else
        && b.count >= 1 && b.start >= 1 && heap.live == w.heap.live + [b]
        && StackStep(w, neighbour, bytes) == World(heap, w.words + Frame(TopOf(b)), w.threads + [Fresh(b)])
  {
    if AddressFor(w.heap, neighbour, StackBytes(bytes)) != 0 {
      AllocateMarks(w.heap.pages, neighbour, PagesFor(StackBytes(bytes)));
    }
  }

  /** A block that was just appended was not there before. */
  lemma {:induction false} AppendedIsNew(start: seq<bool>, h: Heap, live: seq<Block>, b: Block)
    requires Inv(start, h) && h.live == live + [b]
    ensures b !in live
  {
    if b in live {
      var i :| 0 <= i < |live| && live[i] == b;
      assert h.live[i] == b && h.live[|live|] == b && b.Fits(|start|) && b.Has(b.start);
    }
  }

  lemma {:induction false} StackKeeps(start: seq<bool>, w: World, neighbour: Byte, bytes: nat)
    requires WorldInv(start, w) && |start| > 0 && start[0] && SafeNeighbour(neighbour)
    ensures WorldInv(start, StackStep(w, neighbour, bytes))
  {
    var size, b := StackBytes(bytes), NewStack(w, neighbour, bytes);
    InvStep(start, w.heap, Acquire(size, neighbour));
    StackStepIs(w, neighbour, bytes);
    GrowsLive(w.heap, size, neighbour, w.threads);
    if AddressFor(w.heap, neighbour, size) != 0 {
      AppendedIsNew(start, Step(w.heap, Acquire(size, neighbour)), w.heap.live, b);
      FrameKeepsAll(w.words, w.threads, b);
    }
  }

  lemma {:induction false} DiscardLive(live: seq<Block>, threads: seq<Spawned>, i: nat)
    requires AllLive(live, threads) && i < |live| && !IsStack(threads, live[i])
    ensures AllLive(Without(live, i), threads)
  {
    forall t | 0 <= t < |threads|
      ensures threads[t].stack in Without(live, i)
    {
      var k :| 0 <= k < |live| && live[k] == threads[t].stack;
      assert Without(live, i)[if k < i then k else k - 1] == threads[t].stack;
    }
  }

  lemma {:induction false} DiscardKeeps(start: seq<bool>, w: World, i: nat)
    requires WorldInv(start, w) && |start| > 0 && start[0] && MayFree(w, i)
    ensures WorldInv(start, w.(heap := Step(w.heap, Release(i))))
  {
    InvStep(start, w.heap, Release(i));
    DiscardLive(w.heap.live, w.threads, i);
  }

  lemma {:induction false} StartKeeps(start: seq<bool>, w: World, t: nat)
    requires WorldInv(start, w) && t < |w.threads|
    ensures WorldInv(start, w.(threads := Started(w.threads, t)))
  {
    var threads := Started(w.threads, t);
    assert forall i :: 0 <= i < |threads| ==> threads[i].stack == w.threads[i].stack;
  }

  lemma {:induction false} WorldStepKeeps(start: seq<bool>, w: World, e: Event)
    requires WorldInv(start, w) && |start| > 0 && start[0] && AllSafe(BytesSeen(e))
    ensures WorldInv(start, WorldStep(w, e))
  {
    match e
    case New(bytes, n) => NewKeeps(start, w, n, bytes);
    case Spawn(objectBytes, n, stackBytes, n') =>
      NewKeeps(start, w, n, objectBytes);
      StackKeeps(start, NewStep(w, n, objectBytes), n', stackBytes);
    case Discard(i) =>
      if MayFree(w, i) {
        DiscardKeeps(start, w, i);
      }
    case Start(t) =>
      if t < |w.threads| {
        StartKeeps(start, w, t);
      }
    case StackWrite(t, addr, v) =>
      if MayWriteStack(w, t, addr) {
        StackWriteKeeps(start, w, t, addr, v);
      }
    case ObjectWrite(i, addr, v) =>
      if MayWriteObject(w, i, addr) {
        WriteKeeps(start, w, w.heap.live[i], addr, v);
      }
  }

  lemma {:induction false} WorldInvRun(start: seq<bool>, words: map<nat, nat>, run: seq<Event>)
    requires |start| > 0 && start[0] && SafeEvents(run)
    ensures WorldInv(start, Build(start, words, run))
    decreases |run|
  {
    if run != [] {
      WorldInvRun(start, words, run[..|run| - 1]);
      WorldStepKeeps(start, Build(start, words, run[..|run| - 1]), run[|run| - 1]);
    }
  }

  // ------------------------------------------------------------- first switch

  /** What the context switch finds when the seven words are intact. */
  predicate StartsThread(words: map<nat, nat>, t: Spawned) {
    && Poppable(words, t.rsp)
    && var r := SwitchIn(words, t.rsp);
       && r.rip == TRAMPOLINE
       && r.rsp + WORD == TopOf(t.stack)
       && forall k :: 0 <= k < 6 ==> r.registers[k] == 0
  }

  lemma {:induction false} IntactStarts(words: map<nat, nat>, t: Spawned)
    requires Intact(words, t)
    ensures StartsThread(words, t)
  {
    assert words[t.rsp + 6 * WORD] == TRAMPOLINE;
  }

  /** Every thread that has not started has its own live stack, from which the context switch starts it. */
  ghost predicate CanStart(w: World) {
    forall i :: 0 <= i < |w.threads| && !w.threads[i].started ==>
      w.threads[i].stack in w.heap.live && StartsThread(w.words, w.threads[i])
  }

  lemma {:induction false} InvCanStart(start: seq<bool>, w: World)
    requires WorldInv(start, w)
    ensures CanStart(w)
  {
    forall i | 0 <= i < |w.threads| && !w.threads[i].started
      ensures w.threads[i].stack in w.heap.live && StartsThread(w.words, w.threads[i])
    {
      IntactStarts(w.words, w.threads[i]);
    }
  }

  /**
    However many threads are created, started and running, and whatever their owners write to
    their stacks and blocks meanwhile: the first switch to a thread clears the saved
    registers, starts at the trampoline and leaves the stack pointer one word below the top
    of the thread's block, which is still live.
   */
  lemma {:induction false} FirstSwitch(start: seq<bool>, words: map<nat, nat>, run: seq<Event>, i: nat)
    requires |start| > 0 && start[0] && SafeEvents(run)
    requires i < |Build(start, words, run).threads| && !Build(start, words, run).threads[i].started
    ensures var w := Build(start, words, run); w.threads[i].stack in w.heap.live && StartsThread(w.words, w.threads[i])
  {
    WorldInvRun(start, words, run);
    InvCanStart(start, Build(start, words, run));
  }

  // ------------------------------------------- two threads on one stack

  /** The last page is free, page 0 is not, and no two adjacent pages are free. */
  ghost predicate Lonely(pages: seq<bool>) {
    && |pages| >= 8 && pages[0] && !pages[|pages| - 1]
    && forall k :: 0 <= k < |pages| - 1 ==> pages[k] || pages[k + 1]
  }

  lemma {:induction false} LonelyHasNoRun(pages: seq<bool>, s: nat)
    requires Lonely(pages)
    ensures !FreeRun(pages, s, 2)
  {
    if s + 2 <= |pages| {
      assert pages[s] || pages[s + 1];
    }
  }

  lemma {:induction false} UnsafeHasRun(pages: seq<bool>, neighbour: Byte)
    requires Lonely(pages) && !SafeNeighbour(neighbour)
    ensures HasRun(Extended(pages, neighbour), 2)
  {
    var e := Extended(pages, neighbour);
    if !Bit(neighbour, 0) {
      JoiningRun(pages, neighbour);
      assert FreeRun(e, |pages| - 1, 2);
    } else {
      var j :| 0 <= j < CHAR_BIT - 1 && !(Bit(neighbour, j) || Bit(neighbour, j + 1));
      OutsideRun(pages, neighbour, j);
      assert FreeRun(e, |pages| + j, 2);
    }
  }

  /** A two-page request from such a map leaves the map, and nothing is marked. */
  lemma {:induction false} LonelyAllocates(pages: seq<bool>, neighbour: Byte)
    requires Lonely(pages) && !SafeNeighbour(neighbour)
    ensures
      var e, o := Extended(pages, neighbour), Allocate(pages, neighbour, 2);
      && FirstFit(e, 2).Some? && o == Outcome(FirstFit(e, 2).value * PAGE_SIZE, pages)
      && FirstFit(e, 2).value >= |pages| - 1
  {
    UnsafeHasRun(pages, neighbour);
    var e := Extended(pages, neighbour);
    FirstFitSome(e, 2);
    var s := FirstFit(e, 2).value;
    if s + 2 <= |pages| {
      RunInExtended(pages, neighbour, s, 2);
      LonelyHasNoRun(pages, s);
    }
  }

  lemma {:induction false} SameTail(p: seq<bool>, p': seq<bool>, neighbour: Byte, s: nat)
    requires Lonely(p) && Lonely(p') && |p| == |p'| && s >= |p| - 1
    ensures FreeRun(Extended(p, neighbour), s, 2) <==> FreeRun(Extended(p', neighbour), s, 2)
  {
    var e, e' := Extended(p, neighbour), Extended(p', neighbour);
    assert forall k :: |p| - 1 <= k < |e| ==> e[k] == e'[k];
  }

  /** All such maps send the request to the same place. */
  lemma {:induction false} SamePlace(p: seq<bool>, p': seq<bool>, neighbour: Byte)
    requires Lonely(p) && Lonely(p') && |p| == |p'| && !SafeNeighbour(neighbour)
    ensures Allocate(p, neighbour, 2).addr == Allocate(p', neighbour, 2).addr
  {
    LonelyAllocates(p, neighbour);
    LonelyAllocates(p', neighbour);
    SameTail(p, p', neighbour, FirstFit(Extended(p, neighbour), 2).value);
    SameTail(p, p', neighbour, FirstFit(Extended(p', neighbour), 2).value);
  }

  /** The block that such a map yields for two pages. */
  function Outside(pages: seq<bool>, neighbour: Byte): Block {
    Block(Allocate(pages, neighbour, 2).addr / PAGE_SIZE, 2)
  }

  /** A thread creation on such a map: the object takes the lowest free page, the stack lies outside. */
  lemma {:induction false} LonelySpawn(w: World, neighbour: Byte, k: nat)
    requires Lonely(w.heap.pages) && !SafeNeighbour(neighbour)
    requires 1 <= k < |w.heap.pages| - 1 && !w.heap.pages[k] && forall i :: 0 <= i < k ==> w.heap.pages[i]
    ensures
      var b := Outside(w.heap.pages, neighbour);
      var w' := WorldStep(w, Spawn(1, neighbour, 2 * PAGE_SIZE, neighbour));
      && b.start >= 1
      && w'.heap.pages == w.heap.pages[k := true] && Lonely(w'.heap.pages)
      && w'.threads == w.threads + [Fresh(b)]
  {
    var pages := w.heap.pages;
    FirstFree(pages, k);
    assert PagesFor(1 + WORD) == 1 && PagesFor(StackBytes(2 * PAGE_SIZE)) == 2;
    assert Allocate(pages, neighbour, 1) == Outcome(k * PAGE_SIZE, pages[k := true]);
    var made := NewStep(w, neighbour, 1);
    NewStepIs(w, neighbour, 1);
    assert Lonely(pages[k := true]);
    LonelyAllocates(pages[k := true], neighbour);
    SamePlace(pages, pages[k := true], neighbour);
    StackStepIs(made, neighbour, 2 * PAGE_SIZE);
  }

  /** Pages 1, 3 and the last one are free, all others in use. */
  predicate ThreeFree(pages: seq<bool>) {
    |pages| >= 8 && forall k :: 0 <= k < |pages| ==> (pages[k] <==> k != 1 && k != 3 && k != |pages| - 1)
  }

  function TwoSpawns(neighbour: Byte): seq<Event> {
    [Spawn(1, neighbour, 2 * PAGE_SIZE, neighbour), Spawn(1, neighbour, 2 * PAGE_SIZE, neighbour)]
  }

  /** Behind an unsafe byte two threads get one and the same stack. */
  lemma {:induction false} SharedStack(start: seq<bool>, words: map<nat, nat>, neighbour: Byte)
    requires ThreeFree(start) && !SafeNeighbour(neighbour)
    ensures
      var b := Outside(start, neighbour);
      b.start >= 1 && Build(start, words, TwoSpawns(neighbour)).threads == [Fresh(b), Fresh(b)]
  {
    var e, b := Spawn(1, neighbour, 2 * PAGE_SIZE, neighbour), Outside(start, neighbour);
    var w0 := World(Heap(start, []), words, []);
    BuildTwo(start, words, e, e);
    assert Lonely(start);
    LonelySpawn(w0, neighbour, 1);
    var w1 := WorldStep(w0, e);
    assert w1.threads == [Fresh(b)];
    LonelySpawn(w1, neighbour, 3);
    SamePlace(start, w1.heap.pages, neighbour);
    assert WorldStep(w1, e).threads == w1.threads + [Fresh(b)];
  }

  lemma {:induction false} BuildTwo(start: seq<bool>, words: map<nat, nat>, e: Event, e': Event)
    ensures Build(start, words, [e, e']) == WorldStep(WorldStep(World(Heap(start, []), words, []), e), e')
  {
    BuildAppend(start, words, [], e);
    BuildAppend(start, words, [e], e');
    assert [] + [e] == [e] && [e] + [e'] == [e, e'];
  }

  lemma {:induction false} BuildAppend(start: seq<bool>, words: map<nat, nat>, run: seq<Event>, e: Event)
    ensures Build(start, words, run + [e]) == WorldStep(Build(start, words, run), e)
  {
    assert (run + [e])[..|run + [e]| - 1] == run;
  }

  /** The run in which the first thread's first push destroys the second thread's return address. */
  function Clash(start: seq<bool>, neighbour: Byte): seq<Event> {
    TwoSpawns(neighbour) + [Start(0)] + [StackWrite(0, TopOf(Outside(start, neighbour)) - 2 * WORD, 0)]
  }

  lemma {:induction false} NoReturnAddress(words: map<nat, nat>, b: Block)
    requires b.count >= 1 && TopOf(b) - 2 * WORD in words && words[TopOf(b) - 2 * WORD] == 0
    ensures !StartsThread(words, Fresh(b))
  {
    assert Fresh(b).rsp + 6 * WORD == TopOf(b) - 2 * WORD;
  }

  /** Once one of two threads on one stack has started, its first push keeps the other from starting. */
  lemma {:induction false} PushClashes(w: World, b: Block)
    requires b.count >= 1 && w.threads == [Fresh(b), Fresh(b)]
    ensures !CanStart(WorldStep(WorldStep(w, Start(0)), StackWrite(0, TopOf(b) - 2 * WORD, 0)))
  {
    var w' := WorldStep(w, Start(0));
    assert w'.threads == [Fresh(b).(started := true), Fresh(b)];
    PushAtTop(b);
    var w'' := WorldStep(w', StackWrite(0, TopOf(b) - 2 * WORD, 0));
    NoReturnAddress(w''.words, b);
    assert w''.threads[1] == Fresh(b);
  }

  lemma {:induction false} ClashBreaks(start: seq<bool>, words: map<nat, nat>, neighbour: Byte)
    requires ThreeFree(start) && !SafeNeighbour(neighbour)
    ensures !CanStart(Build(start, words, Clash(start, neighbour)))
  {
    var spawned, b := TwoSpawns(neighbour), Outside(start, neighbour);
    SharedStack(start, words, neighbour);
    BuildAppend(start, words, spawned, Start(0));
    BuildAppend(start, words, spawned + [Start(0)], StackWrite(0, TopOf(b) - 2 * WORD, 0));
    PushClashes(Build(start, words, spawned), b);
  }

  lemma {:induction false} PushAtTop(b: Block)
    requires b.count >= 1
    ensures TopOf(b) >= PAGE_SIZE && WordOf(b, TopOf(b) - 2 * WORD)
  {
  }

  // ------------------------------------------------------------ exactly when

  ghost predicate WorldAlwaysSafe(bytes: set<Byte>) {
    forall start: seq<bool>, words, run :: |start| == PAGES && start[0] && EventsSee(run, bytes) ==>
      WorldInv(start, Build(start, words, run))
  }

  /** Unstarted threads can start after every run that sees only these bytes, from every map with page 0 in use. */
  ghost predicate AlwaysCanStart(bytes: set<Byte>) {
    forall start: seq<bool>, words, run :: |start| == PAGES && start[0] && EventsSee(run, bytes) ==>
      CanStart(Build(start, words, run))
  }

  /** The same for page maps that the boot-time parser produces. */
  ghost predicate CanStartAfterBoot(bytes: set<Byte>) {
    forall regions, words, run :: BootMemory.Acceptable(regions) && BootMemory.NoneWraps(regions) && EventsSee(run, bytes) ==>
      CanStart(Build(BootMemory.Parsed(regions), words, run))
  }

  function PageRegion(page: nat): BootMemory.MemoryRegion {
    BootMemory.MemoryRegion(page * PAGE_SIZE, PAGE_SIZE)
  }

  const THREE_PAGES := [PageRegion(1), PageRegion(3), PageRegion(PAGES - 1)]

  lemma {:induction false} PageRegionIs(page: nat, k: nat)
    requires 1 <= page < PAGES
    ensures var r := PageRegion(page); r.Representable() && BootMemory.SafeToWrite(r) && !BootMemory.WrapsOntoPageZero(r)
    ensures BootMemory.Usable(PageRegion(page)) && (BootMemory.Contains(PageRegion(page), k) <==> k == page)
  {
    BootMemory.RangeIsContents(PageRegion(page), page);
  }

  lemma {:induction false} ThreeContain(k: nat)
    ensures BootMemory.Reported(THREE_PAGES, k) <==> k == 1 || k == 3 || k == PAGES - 1
  {
    PageRegionIs(1, k);
    PageRegionIs(3, k);
    PageRegionIs(PAGES - 1, k);
    var rs := THREE_PAGES;
    assert rs[0] == PageRegion(1) && rs[1] == PageRegion(3) && rs[2] == PageRegion(PAGES - 1);
  }

  lemma {:induction false} ThreeReported()
    ensures BootMemory.Acceptable(THREE_PAGES) && BootMemory.NoneWraps(THREE_PAGES)
    ensures ThreeFree(BootMemory.Parsed(THREE_PAGES))
  {
    PageRegionIs(1, 0);
    PageRegionIs(3, 0);
    PageRegionIs(PAGES - 1, 0);
    var rs := THREE_PAGES;
    forall k | 0 <= k < PAGES
      ensures BootMemory.Parsed(rs)[k] <==> k != 1 && k != 3 && k != PAGES - 1
    {
      BootMemory.ParsedExactly(rs, k);
      ThreeContain(k);
    }
  }

  lemma {:induction false} SeenIsSafe(run: seq<Event>, bytes: set<Byte>)
    requires AllSafe(bytes) && EventsSee(run, bytes)
    ensures SafeEvents(run)
  {
  }

  lemma {:induction false} SafeSuffices(bytes: set<Byte>)
    requires AllSafe(bytes)
    ensures WorldAlwaysSafe(bytes) && AlwaysCanStart(bytes) && CanStartAfterBoot(bytes)
  {
    forall start: seq<bool>, words, run | |start| == PAGES && start[0] && EventsSee(run, bytes)
      ensures WorldInv(start, Build(start, words, run)) && CanStart(Build(start, words, run))
    {
      SeenIsSafe(run, bytes);
      WorldInvRun(start, words, run);
      InvCanStart(start, Build(start, words, run));
    }
    forall regions, words, run | BootMemory.Acceptable(regions) && BootMemory.NoneWraps(regions) && EventsSee(run, bytes)
      ensures CanStart(Build(BootMemory.Parsed(regions), words, run))
    {
      BootMemory.PageZeroUsed(regions);
    }
  }

  /**
    Exactly when every thread can start, after all runs and from all maps or just those after
    boot: every byte that allocations may find behind the bitmap is safe.
   */
  lemma {:induction false} WorldSafeExactly(bytes: set<Byte>)
    ensures WorldAlwaysSafe(bytes) <==> AllSafe(bytes)
    ensures AlwaysCanStart(bytes) <==> AllSafe(bytes)
    ensures CanStartAfterBoot(bytes) <==> AllSafe(bytes)
  {
    if AllSafe(bytes) {
      SafeSuffices(bytes);
    } else {
      var b :| b in bytes && !SafeNeighbour(b);
      ThreeReported();
      var start := BootMemory.Parsed(THREE_PAGES);
      var run := Clash(start, b);
      assert EventsSee(run, bytes);
      ClashBreaks(start, map[], b);
      var w := Build(start, map[], run);
      if WorldInv(start, w) {
        InvCanStart(start, w);
      }
      assert !WorldInv(start, w);
    }
  }

  lemma {:induction false} FrameInBlock(b: Block, a: nat)
    requires b.count >= 1
    ensures a in Frame(TopOf(b)) ==> b.Has(a / PAGE_SIZE)
  {
  }

  /** A new block that a servable request yields shares no page with a live block inside the map. */
  lemma {:induction false} NewBlockApart(start: seq<bool>, h: Heap, neighbour: Byte, count: nat, c: Block, page: nat)
    requires Tidy(start, h) && |start| > 0 && start[0]
    requires Allocate(h.pages, neighbour, count).addr != 0 && Servable(h.pages, neighbour, count)
    requires c in h.live && c.Fits(|start|) && c.Has(page)
    ensures !Block(Allocate(h.pages, neighbour, count).addr / PAGE_SIZE, count).Has(page)
  {
    AllocateMarks(h.pages, neighbour, count);
    assert h.pages[0];
    SoundExactly(h.pages, neighbour, count);
    var b := Block(Allocate(h.pages, neighbour, count).addr / PAGE_SIZE, count);
    var i :| 0 <= i < |h.live| && h.live[i] == c;
    assert h.live[i].Fits(|start|) && h.live[i].Has(page);
    assert FreeRun(h.pages, b.start, b.count) && h.pages[page];
  }

  /** Preparing a stack in response to a servable request changes no word of any live block inside the map. */
  lemma {:induction false} OtherBlocksUntouched(start: seq<bool>, w: World, neighbour: Byte, bytes: nat, c: Block, a: nat)
    requires Tidy(start, w.heap) && |start| > 0 && start[0]
    requires Servable(w.heap.pages, neighbour, PagesFor(StackBytes(bytes)))
    requires c in w.heap.live && c.Fits(|start|) && c.Has(a / PAGE_SIZE)
    ensures
      var w' := StackStep(w, neighbour, bytes);
      (a in w'.words <==> a in w.words) && (a in w.words ==> w'.words[a] == w.words[a])
  {
    var count := PagesFor(StackBytes(bytes));
    var addr := Allocate(w.heap.pages, neighbour, count).addr;
    if addr != 0 {
      AllocateMarks(w.heap.pages, neighbour, count);
      NewBlockApart(start, w.heap, neighbour, count, c, a / PAGE_SIZE);
      FrameInBlock(Block(addr / PAGE_SIZE, count), a);
    }
  }

  // --------------------------------------------------- the word at the very top

  predicate TopWordZero(words: map<nat, nat>, b: Block)
    requires b.count >= 1
  {
    TopOf(b) - WORD in words && words[TopOf(b) - WORD] == 0
  }

  lemma {:induction false} HeaderAt(w: World, neighbour: Byte, bytes: nat, b: Block)
    requires b.count >= 1 && TopWordZero(w.words, b)
    ensures TopWordZero(NewStep(w, neighbour, bytes).words, b) <==> AddressFor(w.heap, neighbour, bytes + WORD) != TopOf(b)
  {
  }

  /**
    Operator new overwrites a stack's top word exactly when the lowest run of free pages long
    enough for it starts where the stack ends.
   */
  lemma {:induction false} TopWordExactly(w: World, neighbour: Byte, bytes: nat, b: Block)
    requires b.count >= 1 && TopWordZero(w.words, b)
    ensures
      var pages, n := w.heap.pages, PagesFor(bytes + WORD);
      var kept := TopWordZero(NewStep(w, neighbour, bytes).words, b);
      && (kept <==> !LowestRunAt(Searched(pages, neighbour, n), b.start + b.count, n))
      && (SafeNeighbour(neighbour) && |pages| > 0 && pages[0] ==> (kept <==> !LowestRunAt(pages, b.start + b.count, n)))
  {
    var pages, n, e := w.heap.pages, PagesFor(bytes + WORD), b.start + b.count;
    HeaderAt(w, neighbour, bytes, b);
    AllocateAt(pages, neighbour, n, e);
    if SafeNeighbour(neighbour) && |pages| > 0 && pages[0] {
      LowestRunInside(pages, neighbour, n, e);
    }
  }

  lemma {:induction false} LowestRunInside(pages: seq<bool>, neighbour: Byte, count: nat, e: nat)
    requires |pages| > 0 && pages[0] && count >= 1 && SafeNeighbour(neighbour) && e >= 1
    ensures Allocate(pages, neighbour, count).addr == e * PAGE_SIZE <==> LowestRunAt(pages, e, count)
  {
    SafeIsSound(pages, neighbour, count);
    var o := Allocate(pages, neighbour, count);
    if LowestRunAt(pages, e, count) {
      assert FreeRun(pages, e, count);
      assert o.addr != 0;
      assert FreeRun(pages, o.addr / PAGE_SIZE, count);
    }
  }

  /** The pages below `s` are in use and all others free, as when nothing has been freed yet. */
  predicate UsedBelow(pages: seq<bool>, s: nat) {
    forall k :: 0 <= k < |pages| ==> (pages[k] <==> k < s)
  }

  lemma {:induction false} FitsAt(pages: seq<bool>, neighbour: Byte, s: nat, count: nat)
    requires 1 <= s && count >= 1 && s + count <= |pages| && UsedBelow(pages, s)
    ensures Allocate(pages, neighbour, count) == Outcome(s * PAGE_SIZE, WithRange(pages, s, count, true))
    ensures UsedBelow(Allocate(pages, neighbour, count).pages, s + count)
  {
    assert FreeRun(pages, s, count);
    forall t | 0 <= t < s
      ensures !FreeRun(pages, t, count)
    {
      assert pages[t];
    }
    FirstFitIs(pages, count, s);
    SearchInside(pages, neighbour, count);
    FlipIsRange(pages, s, true);
  }

  lemma {:induction false} StackAt(w: World, neighbour: Byte, s: nat)
    requires 1 <= s && s + 4 <= |w.heap.pages| && UsedBelow(w.heap.pages, s)
    ensures
      var w' := StackStep(w, neighbour, 0);
      && |w'.heap.pages| == |w.heap.pages| && UsedBelow(w'.heap.pages, s + 4)
      && w'.heap.live == w.heap.live + [Block(s, 4)]
      && w'.threads == w.threads + [Fresh(Block(s, 4))]
      && w'.words == w.words + Frame(TopOf(Block(s, 4)))
  {
    FitsAt(w.heap.pages, neighbour, s, 4);
    assert PagesFor(StackBytes(0)) == 4 && s * PAGE_SIZE / PAGE_SIZE == s;
  }

  lemma {:induction false} FreshTop(words: map<nat, nat>, b: Block)
    requires b.count >= 1
    ensures TopWordZero(words + Frame(TopOf(b)), b)
  {
    assert Frame(TopOf(b))[TopOf(b) - WORD] == 0;
  }

  lemma {:induction false} NewOnTop(w: World, neighbour: Byte, b: Block)
    requires b.count >= 1 && b.start + b.count < |w.heap.pages|
    requires UsedBelow(w.heap.pages, b.start + b.count) && TopWordZero(w.words, b)
    ensures !TopWordZero(NewStep(w, neighbour, 100).words, b)
  {
    FitsAt(w.heap.pages, neighbour, b.start + b.count, 1);
    HeaderAt(w, neighbour, 100, b);
  }

  /** A stack followed at once by an allocation of operator new loses its top word. */
  lemma {:induction false} TopWordLost(w: World, neighbour: Byte, s: nat) returns (b: Block)
    requires 1 <= s && s + 5 <= |w.heap.pages| && UsedBelow(w.heap.pages, s)
    ensures b.count >= 1 && b in StackStep(w, neighbour, 0).heap.live
    ensures TopWordZero(StackStep(w, neighbour, 0).words, b)
    ensures !TopWordZero(NewStep(StackStep(w, neighbour, 0), neighbour, 100).words, b)
  {
    b := Block(s, 4);
    StackAt(w, neighbour, s);
    FreshTop(w.words, b);
    NewOnTop(StackStep(w, neighbour, 0), neighbour, b);
  }
}
