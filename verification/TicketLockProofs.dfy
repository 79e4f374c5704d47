/**
  Safety and fairness of the ticket lock for every interleaving, including wrap-around
  of both counters.  The unwrapped queue of outstanding tickets is `log[released..]`.
 */
module TicketLockProofs {
  import opened TicketLock

  ghost predicate CountersWrap(s: State, h: History) {
    && h.released <= |h.log|
    && s.next == |h.log| % MODULUS
    && s.owner == h.released % MODULUS
  }

  /** Outstanding tickets and waiting threads are in one-to-one correspondence. */
  ghost predicate QueueMatches(s: State, h: History)
    requires SameThreads(s, h) && h.released <= |h.log|
  {
    && (forall k :: h.released <= k < |h.log| ==>
          h.log[k] < |s.pcs| && Waits(s.pcs[h.log[k]]) && h.ticketOf[h.log[k]] == k)
    && (forall i :: 0 <= i < |s.pcs| && Waits(s.pcs[i]) ==>
          h.released <= h.ticketOf[i] < |h.log| && h.log[h.ticketOf[i]] == i)
    && (forall i :: 0 <= i < |s.pcs| && s.pcs[i].Spinning? ==> s.pcs[i].ticket == h.ticketOf[i] % MODULUS)
    && (forall i :: 0 <= i < |s.pcs| && s.pcs[i].Holding? ==> h.ticketOf[i] == h.released)
  }

  ghost predicate TriesRemember(s: State, h: History)
    requires SameThreads(s, h)
  {
    forall i :: 0 <= i < |s.pcs| && InTry(s.pcs[i]) ==>
      && h.ownerSeen[i] <= h.released
      && h.ownerSeen[i] <= h.issuedAtTry[i] <= |h.log|
      && h.issuedAtTry[i] - h.ownerSeen[i] < |s.pcs|
      && s.pcs[i].seen == h.ownerSeen[i] % MODULUS
  }

  ghost predicate Held(s: State, h: History)
    requires SameThreads(s, h)
  {
    h.released < |h.log| && h.log[h.released] < |s.pcs| && s.pcs[h.log[h.released]].Holding?
  }

  ghost predicate EntriesInOrder(s: State, h: History)
    requires SameThreads(s, h)
  {
    && |h.entered| == h.released + (if Held(s, h) then 1 else 0)
    && h.entered <= h.log
  }

  ghost predicate Inv(s: State, h: History) {
    && SameThreads(s, h)
    && CountersWrap(s, h)
    && QueueMatches(s, h)
    && TriesRemember(s, h)
    && EntriesInOrder(s, h)
  }

  lemma SameResidue(a: nat, b: nat)
    requires a % MODULUS == b % MODULUS
    requires a <= b < a + MODULUS
    ensures a == b
  {
  }

  /** Residues keep differences smaller than the modulus. */
  lemma ResidueOffset(a: nat, b: nat)
    requires a <= b < a + MODULUS
    ensures b % MODULUS == (a % MODULUS + (b - a)) % MODULUS
    ensures (b % MODULUS + MODULUS - a % MODULUS) % MODULUS == b - a
  {
    var q, s := a / MODULUS, a % MODULUS + (b - a);
    assert b == q * MODULUS + s;
    assert b % MODULUS == if s < MODULUS then s else s - MODULUS;
  }

  lemma {:induction false} DistinctFit(q: seq<nat>, space: set<nat>)
    requires forall k :: 0 <= k < |q| ==> q[k] in space
    requires forall j, k :: 0 <= j < k < |q| ==> q[j] != q[k]
    ensures |q| <= |space|
  {
    if q != [] {
      var last := q[|q| - 1];
      DistinctFit(q[..|q| - 1], space - {last});
    }
  }

  function Below(n: nat): (r: set<nat>)
    ensures |r| == n
    ensures forall i: nat :: i in r <==> i < n
  {
    if n == 0 then {} else Below(n - 1) + {n - 1}
  }

  /** Outstanding tickets never outnumber the waiting threads. */
  lemma QueueFits(s: State, h: History)
    requires Inv(s, h)
    ensures |h.log| - h.released <= |s.pcs|
    ensures forall i :: 0 <= i < |s.pcs| && !Waits(s.pcs[i]) ==> |h.log| - h.released < |s.pcs|
  {
    var all := Below(|s.pcs|);
    var q := h.log[h.released..];
    DistinctFit(q, all);
    forall i | 0 <= i < |s.pcs| && !Waits(s.pcs[i])
      ensures |h.log| - h.released < |s.pcs|
    {
      DistinctFit(q, all - {i});
    }
  }

  /** A matching TryLock that has not stalled too long sees an empty queue. */
  lemma MatchMeansFree(c: Config, i: nat, bound: nat)
    requires Inv(c.s, c.h) && StallsWithin(c, bound) && |c.s.pcs| + bound <= MODULUS
    requires i < |c.s.pcs| && InTry(c.s.pcs[i]) && c.s.pcs[i].seen == c.s.next
    ensures c.h.released == |c.h.log| == c.h.ownerSeen[i]
  {
    SameResidue(c.h.ownerSeen[i], |c.h.log|);
  }

  lemma InvInit(threads: nat)
    ensures Inv(Init(threads), InitHistory(threads))
  {
  }

  lemma InvPoll(s: State, h: History, i: nat)
    requires Inv(s, h) && |s.pcs| <= MODULUS && Enabled(s, PollOwner(i))
    ensures Inv(Step(s, PollOwner(i)), Record(s, h, PollOwner(i)))
  {
    QueueFits(s, h);
    if s.owner == s.pcs[i].ticket {
      SameResidue(h.released, h.ticketOf[i]);
    }
  }

  lemma InvTake(s: State, h: History, i: nat)
    requires Inv(s, h) && Enabled(s, TakeTicket(i))
    ensures Inv(Step(s, TakeTicket(i)), Record(s, h, TakeTicket(i)))
  {
  }

  lemma InvRelease(s: State, h: History, i: nat)
    requires Inv(s, h) && Enabled(s, Release(i))
    ensures Inv(Step(s, Release(i)), Record(s, h, Release(i)))
  {
  }

  lemma InvTryLoads(s: State, h: History, e: Event)
    requires Inv(s, h) && (e.TryLoadOwner? || e.TryLoadNext?) && Enabled(s, e)
    ensures Inv(Step(s, e), Record(s, h, e))
  {
    QueueFits(s, h);
  }

  lemma TryEntersQueue(s: State, h: History, i: nat)
    requires Inv(s, h) && h.released == |h.log|
    requires Enabled(s, TrySwap(i)) && s.next == s.pcs[i].seen
    ensures QueueMatches(Step(s, TrySwap(i)), Record(s, h, TrySwap(i)))
  {
  }

  lemma InvTryEnters(s: State, h: History, i: nat)
    requires Inv(s, h) && h.released == |h.log|
    requires Enabled(s, TrySwap(i)) && s.next == s.pcs[i].seen
    ensures Inv(Step(s, TrySwap(i)), Record(s, h, TrySwap(i)))
  {
    var s', h' := Step(s, TrySwap(i)), Record(s, h, TrySwap(i));
    TryEntersQueue(s, h, i);
    assert TriesRemember(s', h');
  }

  lemma InvTryLeaves(s: State, h: History, i: nat)
    requires Inv(s, h)
    requires Enabled(s, TrySwap(i)) && s.next != s.pcs[i].seen
    ensures Inv(Step(s, TrySwap(i)), Record(s, h, TrySwap(i)))
  {
  }

  lemma InvTrySwap(c: Config, i: nat, bound: nat)
    requires Inv(c.s, c.h) && StallsWithin(c, bound) && |c.s.pcs| + bound <= MODULUS
    requires Enabled(c.s, TrySwap(i))
    ensures Inv(Step(c.s, TrySwap(i)), Record(c.s, c.h, TrySwap(i)))
  {
    if c.s.next == c.s.pcs[i].seen {
      MatchMeansFree(c, i, bound);
      InvTryEnters(c.s, c.h, i);
    } else {
      InvTryLeaves(c.s, c.h, i);
    }
  }

  lemma InvStep(c: Config, e: Event, bound: nat)
    requires Inv(c.s, c.h) && StallsWithin(c, bound) && |c.s.pcs| + bound <= MODULUS
    ensures Inv(Step(c.s, e), Record(c.s, c.h, e))
  {
    if Enabled(c.s, e) {
      match e
      case TakeTicket(i) => InvTake(c.s, c.h, i);
      case PollOwner(i) => InvPoll(c.s, c.h, i);
      case Release(i) => InvRelease(c.s, c.h, i);
      case TrySwap(i) => InvTrySwap(c, i, bound);
      case _ => InvTryLoads(c.s, c.h, e);
    }
  }

  lemma {:induction false} InvRun(threads: nat, run: seq<Event>, bound: nat)
    requires threads + bound <= MODULUS
    requires Bounded(threads, run, bound)
    ensures var c := Exec(threads, run); Inv(c.s, c.h)
    decreases |run|
  {
    if run == [] {
      InvInit(threads);
    } else {
      InvRun(threads, run[..|run| - 1], bound);
      InvStep(Exec(threads, run[..|run| - 1]), run[|run| - 1], bound);
    }
  }

  // ------------------------------------------------- consequences for every run

  /** At most one thread holds the lock, in every interleaving. */
  lemma MutualExclusionHolds(threads: nat, run: seq<Event>, bound: nat)
    requires threads + bound <= MODULUS
    requires Bounded(threads, run, bound)
    ensures MutualExclusion(Exec(threads, run).s)
  {
    InvRun(threads, run, bound);
  }

  lemma {:induction false} DistinctSize(q: seq<nat>, members: set<nat>)
    requires forall x :: x in members <==> x in q
    requires forall j, k :: 0 <= j < k < |q| ==> q[j] != q[k]
    ensures |members| == |q|
  {
    if q == [] {
      assert members == {};
    } else {
      var last := q[|q| - 1];
      DistinctSize(q[..|q| - 1], members - {last});
    }
  }

  lemma WaitersCount(s: State, h: History)
    requires Inv(s, h)
    ensures |Waiters(s)| == |h.log| - h.released
  {
    var q := h.log[h.released..];
    forall i | i in Waiters(s)
      ensures i in q
    {
      assert q[h.ticketOf[i] - h.released] == i;
    }
    DistinctSize(q, Waiters(s));
  }

  lemma SlotOfTicket(s: State, h: History, i: nat)
    requires Inv(s, h) && |s.pcs| <= MODULUS && i in Waiters(s)
    ensures Ticket(s, i) == Slot(s, h.ticketOf[i] - h.released)
    ensures h.ticketOf[i] - h.released < |Waiters(s)| <= MODULUS
    ensures s.pcs[i].Spinning? ==> Distance(s, i) == h.ticketOf[i] - h.released
  {
    QueueFits(s, h);
    WaitersCount(s, h);
    ResidueOffset(h.released, h.ticketOf[i]);
  }

  lemma SlotsDiffer(s: State, d: nat, d': nat)
    requires d < d' < d + MODULUS
    ensures Slot(s, d) != Slot(s, d')
  {
  }

  lemma DistinctFromInv(s: State, h: History)
    requires Inv(s, h) && |s.pcs| <= MODULUS
    ensures TicketsDistinct(s)
  {
    forall i, j | i in Waiters(s) && j in Waiters(s) && i != j
      ensures Ticket(s, i) != Ticket(s, j)
    {
      SlotOfTicket(s, h, i);
      SlotOfTicket(s, h, j);
      var x, y := h.ticketOf[i] - h.released, h.ticketOf[j] - h.released;
      if x < y {
        SlotsDiffer(s, x, y);
      } else {
        assert h.log[h.ticketOf[i]] != h.log[h.ticketOf[j]];
        SlotsDiffer(s, y, x);
      }
    }
  }

  lemma ResidueSum(a: nat, d: nat)
    ensures (a % MODULUS + d) % MODULUS == (a + d) % MODULUS
  {
  }

  lemma NextIsLastSlot(s: State, h: History)
    requires Inv(s, h)
    ensures s.next == Slot(s, |Waiters(s)|)
  {
    WaitersCount(s, h);
    ResidueSum(h.released, |h.log| - h.released);
  }

  lemma SlotsFromInv(s: State, h: History)
    requires Inv(s, h) && |s.pcs| <= MODULUS
    ensures TicketsFillSlots(s)
  {
    WaitersCount(s, h);
    NextIsLastSlot(s, h);
    forall d | 0 <= d < |Waiters(s)|
      ensures exists i :: i in Waiters(s) && Ticket(s, i) == Slot(s, d)
    {
      var i := h.log[h.released + d];
      SlotOfTicket(s, h, i);
      assert i in Waiters(s) && Ticket(s, i) == Slot(s, d);
    }
    forall i | i in Waiters(s)
      ensures exists d :: 0 <= d < |Waiters(s)| && Ticket(s, i) == Slot(s, d)
    {
      SlotOfTicket(s, h, i);
      var d := h.ticketOf[i] - h.released;
      assert 0 <= d < |Waiters(s)| && Ticket(s, i) == Slot(s, d);
    }
  }

  /**
    The outstanding 32-bit tickets are distinct and are exactly the values from Owner
    up to Next, whatever wrapping has taken place.
   */
  lemma OutstandingTickets(threads: nat, run: seq<Event>, bound: nat)
    requires threads + bound <= MODULUS
    requires Bounded(threads, run, bound)
    ensures TicketsDistinct(Exec(threads, run).s)
    ensures TicketsFillSlots(Exec(threads, run).s)
  {
    InvRun(threads, run, bound);
    var c := Exec(threads, run);
    DistinctFromInv(c.s, c.h);
    SlotsFromInv(c.s, c.h);
  }

  /** Threads enter in exactly the order in which they took tickets; none is skipped. */
  lemma EntriesFollowTickets(threads: nat, run: seq<Event>, bound: nat)
    requires threads + bound <= MODULUS
    requires Bounded(threads, run, bound)
    ensures
      var c := Exec(threads, run);
      && c.h.entered <= c.h.log
      && |c.h.log| - |c.h.entered| + (if exists i :: 0 <= i < threads && c.s.pcs[i].Holding? then 1 else 0)
           == |Waiters(c.s)|
  {
    InvRun(threads, run, bound);
    var c := Exec(threads, run);
    WaitersCount(c.s, c.h);
    if i :| 0 <= i < threads && c.s.pcs[i].Holding? {
      assert c.h.log[c.h.released] == i;
    }
  }

  lemma TurnIsDistanceZero(s: State, h: History, i: nat)
    requires Inv(s, h) && |s.pcs| <= MODULUS
    requires i < |s.pcs| && s.pcs[i].Spinning?
    ensures Distance(s, i) < |s.pcs|
    ensures s.owner == s.pcs[i].ticket <==> Distance(s, i) == 0
  {
    QueueFits(s, h);
    SlotOfTicket(s, h, i);
    if s.owner == s.pcs[i].ticket {
      SameResidue(h.released, h.ticketOf[i]);
    }
  }

  lemma DistanceAfter(c: Config, bound: nat, i: nat, e: Event)
    requires Inv(c.s, c.h) && StallsWithin(c, bound) && |c.s.pcs| + bound <= MODULUS
    requires i < |c.s.pcs| && c.s.pcs[i].Spinning? && Step(c.s, e).pcs[i].Spinning?
    ensures Distance(Step(c.s, e), i) == Distance(c.s, i) - (if e.Release? && Enabled(c.s, e) then 1 else 0)
  {
    var s', h' := Step(c.s, e), Record(c.s, c.h, e);
    InvStep(c, e, bound);
    SlotOfTicket(c.s, c.h, i);
    SlotOfTicket(s', h', i);
    assert h'.ticketOf[i] == c.h.ticketOf[i];
  }

  /**
    Bounded bypass.  A waiter's 32-bit distance to Owner is below the number of threads,
    falls by one at each release, is unchanged by every other step, and is 0 exactly
    when its next look at Owner lets it in.
   */
  lemma WaiterProgress(threads: nat, run: seq<Event>, bound: nat, i: nat, e: Event)
    requires threads + bound <= MODULUS
    requires Bounded(threads, run, bound)
    requires i < threads && Exec(threads, run).s.pcs[i].Spinning?
    ensures
      var s := Exec(threads, run).s;
      && Distance(s, i) < threads
      && (Step(s, PollOwner(i)).pcs[i].Holding? <==> Distance(s, i) == 0)
      && (Step(s, e).pcs[i].Spinning? ==>
            Distance(Step(s, e), i) == Distance(s, i) - (if e.Release? && Enabled(s, e) then 1 else 0))
  {
    InvRun(threads, run, bound);
    var c := Exec(threads, run);
    TurnIsDistanceZero(c.s, c.h, i);
    if Step(c.s, e).pcs[i].Spinning? {
      DistanceAfter(c, bound, i, e);
    }
  }

  /** A TryLock that succeeds found nobody holding or waiting, so it overtakes no one. */
  lemma TryNeverOvertakes(threads: nat, run: seq<Event>, bound: nat, i: nat)
    requires threads + bound <= MODULUS
    requires Bounded(threads, run, bound)
    requires var s := Exec(threads, run).s; Enabled(s, TrySwap(i)) && Step(s, TrySwap(i)).pcs[i].Holding?
    ensures Waiters(Exec(threads, run).s) == {}
  {
    InvRun(threads, run, bound);
    var c := Exec(threads, run);
    MatchMeansFree(c, i, bound);
    WaitersCount(c.s, c.h);
  }
}
