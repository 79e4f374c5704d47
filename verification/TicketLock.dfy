/**
  The ticket spin lock as an interleaving transition system.  Every atomic load,
  fetch-and-add and compare-exchange of Lock, TryLock and Unlock is one step, over
  sequentially consistent memory.  The two counters are 32-bit and wrap.

  A `History` runs beside the machine and never influences it.  It counts tickets
  without wrapping, so that claims about the 32-bit counters can be stated and proved.
 */
module TicketLock {
  import Machine

  const MODULUS: nat := Machine.U32_LIMIT

  /** Where a thread stands inside the code of Lock, TryLock and Unlock. */
  datatype Pc =
    | Idle
    | Spinning(ticket: nat)   // Lock: ticket taken, waiting to read it back from Owner
    | TryLoaded(seen: nat)    // TryLock: Owner loaded
    | TryMatched(seen: nat)   // TryLock: Next loaded and equal to Owner
    | Holding

  datatype State = State(next: nat, owner: nat, pcs: seq<Pc>)

  /** One atomic instruction, executed by one thread. */
  datatype Event =
    | TakeTicket(thread: nat)     // Lock: fetch_add on Next
    | PollOwner(thread: nat)      // Lock: one load of Owner in the spin loop
    | TryLoadOwner(thread: nat)   // TryLock: load of Owner
    | TryLoadNext(thread: nat)    // TryLock: load of Next and the comparison
    | TrySwap(thread: nat)        // TryLock: compare-exchange on Next
    | Release(thread: nat)        // Unlock: fetch_add on Owner

  function Increment(n: nat): nat {
    (n + 1) % MODULUS
  }

  /** The instructions a thread's program counter allows it to execute next. */
  predicate Enabled(s: State, e: Event) {
    && e.thread < |s.pcs|
    && match e
       case TakeTicket(i) => s.pcs[i].Idle?
       case PollOwner(i) => s.pcs[i].Spinning?
       case TryLoadOwner(i) => s.pcs[i].Idle?
       case TryLoadNext(i) => s.pcs[i].TryLoaded?
       case TrySwap(i) => s.pcs[i].TryMatched?
       case Release(i) => s.pcs[i].Holding?
  }

  function Goto(s: State, i: nat, pc: Pc): State
    requires i < |s.pcs|
  {
    s.(pcs := s.pcs[i := pc])
  }

  /** The machine.  An event that is not enabled changes nothing. */
  function Step(s: State, e: Event): State {
    if !Enabled(s, e) then s else
    match e
    case TakeTicket(i) => Goto(s, i, Spinning(s.next)).(next := Increment(s.next))
    case PollOwner(i) => if s.owner == s.pcs[i].ticket then Goto(s, i, Holding) else s
    case TryLoadOwner(i) => Goto(s, i, TryLoaded(s.owner))
    case TryLoadNext(i) => Goto(s, i, if s.pcs[i].seen == s.next then TryMatched(s.next) else Idle)
    case TrySwap(i) =>
      if s.next == s.pcs[i].seen
      then Goto(s, i, Holding).(next := Increment(s.next))
      else Goto(s, i, Idle)
    case Release(i) => Goto(s, i, Idle).(owner := Increment(s.owner))
  }

  function Init(threads: nat): State {
    State(0, 0, seq(threads, _ => Idle))
  }

  // ---------------------------------------------------------------- history

  /**
    log: threads in the order in which they took tickets; the position is the unwrapped ticket.
    released: number of releases so far.  entered: threads in the order in which they entered.
    ticketOf: last unwrapped ticket of each thread.  ownerSeen, issuedAtTry: releases and
    tickets that had happened when the thread's latest TryLock loaded Owner.
   */
  datatype History = History(
    log: seq<nat>, released: nat, entered: seq<nat>,
    ticketOf: seq<nat>, ownerSeen: seq<nat>, issuedAtTry: seq<nat>)

  function InitHistory(threads: nat): History {
    var zeros := seq(threads, _ => 0);
    History([], 0, [], zeros, zeros, zeros)
  }

  predicate SameThreads(s: State, h: History) {
    |s.pcs| == |h.ticketOf| == |h.ownerSeen| == |h.issuedAtTry|
  }

  function Record(s: State, h: History, e: Event): (h': History)
    requires SameThreads(s, h)
    ensures SameThreads(Step(s, e), h')
  {
    if !Enabled(s, e) then h else
    match e
    case TakeTicket(i) => h.(log := h.log + [i], ticketOf := h.ticketOf[i := |h.log|])
    case PollOwner(i) => if s.owner == s.pcs[i].ticket then h.(entered := h.entered + [i]) else h
    case TryLoadOwner(i) =>
      h.(ownerSeen := h.ownerSeen[i := h.released], issuedAtTry := h.issuedAtTry[i := |h.log|])
    case TryLoadNext(i) => h
    case TrySwap(i) =>
      if s.next == s.pcs[i].seen
      then h.(log := h.log + [i], ticketOf := h.ticketOf[i := |h.log|], entered := h.entered + [i])
      else h
    case Release(i) => h.(released := h.released + 1)
  }

  datatype Config = Config(s: State, h: History)

  /** The state and history after a finite interleaving of `threads` threads. */
  function Exec(threads: nat, run: seq<Event>): (c: Config)
    ensures SameThreads(c.s, c.h)
    ensures |c.s.pcs| == threads
    decreases |run|
  {
    if run == [] then Config(Init(threads), InitHistory(threads))
    else
      var c := Exec(threads, run[..|run| - 1]);
      var e := run[|run| - 1];
      Config(Step(c.s, e), Record(c.s, c.h, e))
  }

  // ------------------------------------------------------------- statements

  predicate InTry(pc: Pc) {
    pc.TryLoaded? || pc.TryMatched?
  }

  predicate Waits(pc: Pc) {
    pc.Spinning? || pc.Holding?
  }

  /** At most `bound` tickets have been issued since any unfinished TryLock began. */
  ghost predicate StallsWithin(c: Config, bound: nat)
    requires SameThreads(c.s, c.h)
  {
    forall i :: 0 <= i < |c.s.pcs| && InTry(c.s.pcs[i]) ==> |c.h.log| - c.h.issuedAtTry[i] <= bound
  }

  /** The same at every point of the run. */
  ghost predicate Bounded(threads: nat, run: seq<Event>, bound: nat)
    decreases |run|
  {
    && StallsWithin(Exec(threads, run), bound)
    && (run != [] ==> Bounded(threads, run[..|run| - 1], bound))
  }

  ghost predicate MutualExclusion(s: State) {
    forall i, j :: 0 <= i < |s.pcs| && 0 <= j < |s.pcs| && s.pcs[i].Holding? && s.pcs[j].Holding? ==> i == j
  }

  /** Mutual exclusion at the end of every run in which no TryLock lasts longer than `bound` tickets. */
  ghost predicate AlwaysExclusive(threads: nat, bound: nat) {
    forall run :: Bounded(threads, run, bound) ==> MutualExclusion(Exec(threads, run).s)
  }

  /** How many releases a waiter still has to see: the 32-bit difference of its ticket and Owner. */
  function Distance(s: State, i: nat): nat
    requires i < |s.pcs| && s.pcs[i].Spinning?
  {
    (s.pcs[i].ticket + MODULUS - s.owner) % MODULUS
  }

  /** Threads that have a ticket and have not released yet. */
  function Waiters(s: State): set<nat> {
    set i | 0 <= i < |s.pcs| && Waits(s.pcs[i])
  }

  /** The 32-bit ticket of a waiter; a thread that holds the lock has the one Owner shows. */
  function Ticket(s: State, i: nat): nat
    requires i < |s.pcs| && Waits(s.pcs[i])
  {
    if s.pcs[i].Spinning? then s.pcs[i].ticket else s.owner
  }

  /** The 32-bit ticket `d` places after the one being served. */
  function Slot(s: State, d: nat): nat {
    (s.owner + d) % MODULUS
  }

  ghost predicate TicketsDistinct(s: State) {
    forall i, j :: i in Waiters(s) && j in Waiters(s) && i != j ==> Ticket(s, i) != Ticket(s, j)
  }

  /** The outstanding 32-bit tickets are exactly those from Owner up to, not including, Next. */
  ghost predicate TicketsFillSlots(s: State) {
    && s.next == Slot(s, |Waiters(s)|)
    && (forall d :: 0 <= d < |Waiters(s)| ==> exists i :: i in Waiters(s) && Ticket(s, i) == Slot(s, d))
    && (forall i :: i in Waiters(s) ==> exists d :: 0 <= d < |Waiters(s)| && Ticket(s, i) == Slot(s, d))
  }
}
