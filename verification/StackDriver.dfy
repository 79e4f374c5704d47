/**
  Operator new and thread creation as the kernel runs them: the page allocator object, a
  stack object and memory that is written word by word.  Driven by any run they end in the
  world that the run describes.
 */
module StackDriver {
  import opened Machine
  import opened Bits
  import opened PageMap
  import opened Allocation
  import opened AllocatorRuns
  import opened KernelStacks
  import opened StackRuns
  import PageAllocator

  type Pages = PageAllocator.EarlyPageAllocator

  /** operator new: the block's address, or 0 where the kernel would panic. */
  method OperatorNew(a: Pages, mem: Memory, bytes: nat) returns (p: nat)
    requires a.Valid() && bytes + WORD < SIZE_LIMIT
    modifies a.Bitmap, mem
    ensures a.Neighbour() == old(a.Neighbour())
    ensures
      var o := Allocate(old(a.Pages()), old(a.Neighbour()), PagesFor(bytes + WORD));
      p == o.addr && a.Pages() == o.pages
    ensures p == 0 ==> mem.Words == old(mem.Words)
    ensures p != 0 ==> p >= WORD && mem.Words == old(mem.Words)[p - WORD := Header(PagesFor(bytes + WORD))]
  {
    p := a.AllocatePageSized(bytes + WORD);
    if p != 0 {
      WriteHeader(mem, p, PagesFor(bytes + WORD));
    }
  }

  /** The header in front of the block at p. */
  method WriteHeader(mem: Memory, p: nat, count: nat)
    requires p >= WORD
    modifies mem
    ensures mem.Words == old(mem.Words)[p - WORD := Header(count)]
  {
    var _ := mem.Push(p, Header(count));
  }

  /** The stack part of CreateKernel: allocate it and write its first frame. */
  method PrepareStack(a: Pages, mem: Memory, bytes: nat) returns (ok: bool, stack: KernelStack, rsp: nat)
    requires a.Valid() && bytes < SIZE_LIMIT
    modifies a.Bitmap, mem
    ensures a.Neighbour() == old(a.Neighbour()) && fresh(stack)
    ensures
      var o := Allocate(old(a.Pages()), old(a.Neighbour()), PagesFor(StackBytes(bytes)));
      && ok == (o.addr != 0) && a.Pages() == o.pages
      && (!ok ==> mem.Words == old(mem.Words))
      && (ok ==> stack.Base == o.addr && stack.Top() == TopOf(Block(o.addr / PAGE_SIZE, PagesFor(StackBytes(bytes)))))
    ensures ok ==> stack.Top() >= 8 * WORD && rsp == stack.Top() - 8 * WORD && mem.Words == old(mem.Words) + Frame(stack.Top())
  {
    stack := new KernelStack();
    rsp := 0;
    ok := stack.Allocate(a, bytes);
    if ok {
      TopIsSum(stack.Base, PagesFor(StackBytes(bytes)));
      rsp := mem.PrepareInitialStack(stack.Top());
    }
  }

  lemma TopIsSum(base: nat, count: nat)
    requires base % PAGE_SIZE == 0 && base != 0
    ensures base + count * PAGE_SIZE == TopOf(Block(base / PAGE_SIZE, count)) >= PAGE_SIZE
  {
  }

  /** The world these objects and lists stand for. */
  ghost function Now(a: Pages, mem: Memory, live: seq<Block>, threads: seq<Spawned>): World
    requires a.Valid()
    reads a, a.Bitmap, mem
  {
    World(Heap(a.Pages(), live), mem.Words, threads)
  }

  method DoNew(a: Pages, mem: Memory, neighbour: Byte, bytes: nat, live: seq<Block>, ghost threads: seq<Spawned>)
    returns (p: nat, live': seq<Block>)
    requires a.Valid() && bytes + WORD < SIZE_LIMIT && AllSmall(live)
    modifies a.Bitmap, mem
    ensures AllSmall(live')
    ensures p == AddressFor(old(Now(a, mem, live, threads)).heap, neighbour, bytes + WORD)
    ensures Now(a, mem, live', threads) == NewStep(old(Now(a, mem, live, threads)), neighbour, bytes)
  {
    a.ChangeNeighbour(neighbour);
    AllocateSmall(a.Pages(), neighbour, PagesFor(bytes + WORD));
    NewStepIs(Now(a, mem, live, threads), neighbour, bytes);
    p := OperatorNew(a, mem, bytes);
    live' := if p == 0 then live else live + [Block(p / PAGE_SIZE, PagesFor(bytes + WORD))];
  }

  method DoStack(a: Pages, mem: Memory, neighbour: Byte, bytes: nat, live: seq<Block>, threads: seq<Spawned>)
    returns (live': seq<Block>, threads': seq<Spawned>)
    requires a.Valid() && bytes < SIZE_LIMIT && AllSmall(live)
    modifies a.Bitmap, mem
    ensures AllSmall(live')
    ensures Now(a, mem, live', threads') == StackStep(old(Now(a, mem, live, threads)), neighbour, bytes)
  {
    a.ChangeNeighbour(neighbour);
    AllocateSmall(a.Pages(), neighbour, PagesFor(StackBytes(bytes)));
    var ok, stack, rsp := PrepareStack(a, mem, bytes);
    live', threads' := live, threads;
    if ok {
      var block := Block(stack.Base / PAGE_SIZE, PagesFor(StackBytes(bytes)));
      live', threads' := live + [block], threads + [Spawned(block, rsp, false)];
    }
  }

  /** CreateKernel: the thread object, then its stack. */
  method CreateKernel(a: Pages, mem: Memory, objectNeighbour: Byte, objectBytes: nat, stackNeighbour: Byte, stackBytes: nat,
                      live: seq<Block>, threads: seq<Spawned>)
    returns (live': seq<Block>, threads': seq<Spawned>)
    requires a.Valid() && AllSmall(live) && objectBytes + WORD < SIZE_LIMIT && stackBytes < SIZE_LIMIT
    modifies a.Bitmap, mem
    ensures AllSmall(live')
    ensures Now(a, mem, live', threads') ==
            SpawnStep(old(Now(a, mem, live, threads)), objectNeighbour, objectBytes, stackNeighbour, stackBytes)
  {
    var p, made := DoNew(a, mem, objectNeighbour, objectBytes, live, threads);
    live', threads' := made, threads;
    if p != 0 {
      live', threads' := DoStack(a, mem, stackNeighbour, stackBytes, made, threads);
    }
  }

  predicate SmallEvent(e: Event) {
    match e
    case New(bytes, _) => bytes + WORD < SIZE_LIMIT
    case Spawn(objectBytes, _, stackBytes, _) => objectBytes + WORD < SIZE_LIMIT && stackBytes < SIZE_LIMIT
    case _ => true
  }

  method DriveOne(a: Pages, mem: Memory, e: Event, live: seq<Block>, threads: seq<Spawned>)
    returns (live': seq<Block>, threads': seq<Spawned>)
    requires a.Valid() && AllSmall(live) && SmallEvent(e)
    modifies a.Bitmap, mem
    ensures AllSmall(live')
    ensures Now(a, mem, live', threads') == WorldStep(old(Now(a, mem, live, threads)), e)
  {
    live', threads' := live, threads;
    match e
    case New(bytes, neighbour) =>
      var _, made := DoNew(a, mem, neighbour, bytes, live, threads);
      live' := made;
    case Spawn(objectBytes, objectNeighbour, stackBytes, stackNeighbour) =>
      live', threads' := CreateKernel(a, mem, objectNeighbour, objectBytes, stackNeighbour, stackBytes, live, threads);
    case Discard(i) =>
      if i < |live| && !IsStack(threads, live[i]) {
        live' := ServeOne(a, live, Release(i));
      }
    case Start(t) =>
      if t < |threads| {
        threads' := Started(threads, t);
      }
    case StackWrite(t, addr, v) =>
      if t < |threads| && threads[t].started && WordOf(threads[t].stack, addr) {
        mem.Store(addr, v);
      }
    case ObjectWrite(i, addr, v) =>
      if i < |live| && !IsStack(threads, live[i]) && WordOf(live[i], addr) {
        mem.Store(addr, v);
      }
  }

  /**
    The objects, driven by any run, end in the world of that run; with page 0 in use and safe
    bytes behind the bitmap every thread that has not started can start.
   */
  method Drive(a: Pages, mem: Memory, run: seq<Event>) returns (live: seq<Block>, threads: seq<Spawned>)
    requires a.Valid() && forall i :: 0 <= i < |run| ==> SmallEvent(run[i])
    modifies a.Bitmap, mem
    ensures Now(a, mem, live, threads) == Build(old(a.Pages()), old(mem.Words), run)
    ensures old(a.Pages())[0] && SafeEvents(run) ==> CanStart(Now(a, mem, live, threads))
  {
    live, threads := [], [];
    for k := 0 to |run|
      invariant AllSmall(live) && Now(a, mem, live, threads) == Build(old(a.Pages()), old(mem.Words), run[..k])
    {
      assert run[..k + 1][..k] == run[..k];
      live, threads := DriveOne(a, mem, run[k], live, threads);
    }
    assert run[..|run|] == run;
    if old(a.Pages())[0] && SafeEvents(run) {
      WorldInvRun(old(a.Pages()), old(mem.Words), run);
      InvCanStart(old(a.Pages()), Build(old(a.Pages()), old(mem.Words), run));
    }
  }
}
