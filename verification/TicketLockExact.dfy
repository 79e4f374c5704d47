/**
  The bound on TryLock is exact.  With at least two threads, mutual exclusion holds in all
  runs whose TryLock calls each last at most `bound` tickets if and only if
  threads + bound <= 2^32.  Beyond the bound a run that breaks it is built step by step.
 */
module TicketLockExact {
  import opened TicketLock
  import TicketLockProofs

  lemma Extend(threads: nat, run: seq<Event>, e: Event, bound: nat)
    requires Bounded(threads, run, bound)
    requires
      var c := Exec(threads, run);
      StallsWithin(Config(Step(c.s, e), Record(c.s, c.h, e)), bound)
    ensures Bounded(threads, run + [e], bound)
    ensures
      var c := Exec(threads, run);
      Exec(threads, run + [e]) == Config(Step(c.s, e), Record(c.s, c.h, e))
  {
    assert (run + [e])[..|run + [e]| - 1] == run;
  }

  /** `count` threads, starting at `first`, hold consecutive tickets and nothing else has happened. */
  function Queued(threads: nat, first: nat, count: nat): State {
    State(count % MODULUS, 0,
          seq(threads, i => if first <= i < first + count then Spinning((i - first) % MODULUS) else Idle))
  }

  lemma IncrementResidue(n: nat)
    ensures Increment(n % MODULUS) == (n + 1) % MODULUS
  {
  }

  lemma TakeNext(threads: nat, first: nat, count: nat)
    requires first + count < threads
    ensures Step(Queued(threads, first, count), TakeTicket(first + count)) == Queued(threads, first, count + 1)
  {
    IncrementResidue(count);
    var s := Step(Queued(threads, first, count), TakeTicket(first + count));
    assert s.pcs == Queued(threads, first, count + 1).pcs;
  }

  lemma QueuedStallsNobody(c: Config, threads: nat, first: nat, count: nat, bound: nat)
    requires SameThreads(c.s, c.h) && c.s == Queued(threads, first, count)
    ensures StallsWithin(c, bound)
  {
  }

  lemma TakeOne(threads: nat, r0: seq<Event>, first: nat, count: nat, bound: nat) returns (run: seq<Event>)
    requires first + count < threads
    requires Bounded(threads, r0, bound)
    requires Exec(threads, r0).s == Queued(threads, first, count) && |Exec(threads, r0).h.log| == count
    ensures Bounded(threads, run, bound)
    ensures Exec(threads, run).s == Queued(threads, first, count + 1) && |Exec(threads, run).h.log| == count + 1
  {
    var e := TakeTicket(first + count);
    var c := Exec(threads, r0);
    TakeNext(threads, first, count);
    QueuedStallsNobody(Config(Step(c.s, e), Record(c.s, c.h, e)), threads, first, count + 1, bound);
    Extend(threads, r0, e, bound);
    run := r0 + [e];
  }

  lemma {:induction false} TakeTickets(threads: nat, first: nat, count: nat, bound: nat) returns (run: seq<Event>)
    requires first + count <= threads
    ensures Bounded(threads, run, bound)
    ensures Exec(threads, run).s == Queued(threads, first, count)
    ensures |Exec(threads, run).h.log| == count
  {
    if count == 0 {
      run := [];
      assert Init(threads) == Queued(threads, first, 0);
    } else {
      run := TakeTickets(threads, first, count - 1, bound);
      run := TakeOne(threads, run, first, count - 1, bound);
    }
  }

  lemma PollUnstalled(threads: nat, r0: seq<Event>, i: nat, bound: nat) returns (run: seq<Event>)
    requires i < threads && Bounded(threads, r0, bound)
    requires forall j :: 0 <= j < threads ==> !InTry(Exec(threads, r0).s.pcs[j])
    requires var s := Exec(threads, r0).s; s.pcs[i] == Spinning(s.owner)
    ensures Bounded(threads, run, bound)
    ensures Exec(threads, run).s == Goto(Exec(threads, r0).s, i, Holding)
  {
    Extend(threads, r0, PollOwner(i), bound);
    run := r0 + [PollOwner(i)];
  }

  /** More threads than 32-bit tickets: two waiters share a ticket and both enter. */
  lemma TooManyThreads(threads: nat, bound: nat) returns (run: seq<Event>)
    requires threads > MODULUS
    ensures Bounded(threads, run, bound)
    ensures !MutualExclusion(Exec(threads, run).s)
  {
    var r0 := TakeTickets(threads, 0, MODULUS + 1, bound);
    var r1 := PollUnstalled(threads, r0, 0, bound);
    run := PollUnstalled(threads, r1, MODULUS, bound);
    var s := Exec(threads, run).s;
    assert s.pcs[0].Holding? && s.pcs[MODULUS].Holding?;
  }

  // ---------------------------------- a TryLock that is outrun by 2^32 tickets

  /** Thread 0 is inside TryLock, having loaded Owner when it was 0 and threads - 1 tickets were out. */
  ghost predicate Stalled(c: Config, next: nat, owner: nat, issued: nat, others: nat -> Pc) {
    var threads := |c.s.pcs|;
    && threads >= 2 && SameThreads(c.s, c.h)
    && c.s.next == next && c.s.owner == owner && |c.h.log| == issued
    && c.s.pcs[0] == TryLoaded(0) && c.h.issuedAtTry[0] == threads - 1
    && (forall i :: 1 <= i < threads ==> c.s.pcs[i] == others(i) && !InTry(others(i)))
  }

  lemma Stall(threads: nat, bound: nat) returns (run: seq<Event>)
    requires 2 <= threads <= MODULUS
    ensures Bounded(threads, run, bound)
    ensures Stalled(Exec(threads, run), threads - 1, 0, threads - 1, (i: nat) => Spinning(if i > 0 then i - 1 else 0))
  {
    var r0 := TakeTickets(threads, 1, threads - 1, bound);
    Extend(threads, r0, TryLoadOwner(0), bound);
    run := r0 + [TryLoadOwner(0)];
  }

  function Draining(count: nat): nat -> Pc {
    (i: nat) => if i <= count then Idle else Spinning(i - 1)
  }

  function Serving(count: nat): nat -> Pc {
    (i: nat) => if i < count then Idle else if i == count then Holding else Spinning(i - 1)
  }

  lemma DrainPoll(threads: nat, r0: seq<Event>, count: nat, bound: nat) returns (run: seq<Event>)
    requires 1 <= count < threads <= MODULUS
    requires Bounded(threads, r0, bound)
    requires Stalled(Exec(threads, r0), threads - 1, count - 1, threads - 1, Draining(count - 1))
    ensures Bounded(threads, run, bound)
    ensures Stalled(Exec(threads, run), threads - 1, count - 1, threads - 1, Serving(count))
  {
    Extend(threads, r0, PollOwner(count), bound);
    run := r0 + [PollOwner(count)];
  }

  lemma DrainRelease(threads: nat, r0: seq<Event>, count: nat, bound: nat) returns (run: seq<Event>)
    requires 1 <= count < threads <= MODULUS
    requires Bounded(threads, r0, bound)
    requires Stalled(Exec(threads, r0), threads - 1, count - 1, threads - 1, Serving(count))
    ensures Bounded(threads, run, bound)
    ensures Stalled(Exec(threads, run), threads - 1, count, threads - 1, Draining(count))
  {
    Extend(threads, r0, Release(count), bound);
    run := r0 + [Release(count)];
  }

  /** The first `count` waiters enter and leave in turn. */
  lemma {:induction false} Drain(threads: nat, count: nat, bound: nat) returns (run: seq<Event>)
    requires 2 <= threads <= MODULUS && count <= threads - 1
    ensures Bounded(threads, run, bound)
    ensures Stalled(Exec(threads, run), threads - 1, count, threads - 1, Draining(count))
  {
    if count == 0 {
      run := Stall(threads, bound);
    } else {
      run := Drain(threads, count - 1, bound);
      run := DrainPoll(threads, run, count, bound);
      run := DrainRelease(threads, run, count, bound);
    }
  }

  const AllIdle: nat -> Pc := (i: nat) => Idle
  const FirstHolds: nat -> Pc := (i: nat) => if i == 1 then Holding else Idle

  /** Thread 1 enters while thread 0 is still inside TryLock. */
  lemma Enter(threads: nat, r0: seq<Event>, turn: nat, bound: nat) returns (run: seq<Event>)
    requires 2 <= threads <= turn + 1 <= MODULUS && turn + 1 - (threads - 1) <= bound
    requires Bounded(threads, r0, bound)
    requires Stalled(Exec(threads, r0), turn, turn, turn, AllIdle)
    ensures Bounded(threads, run, bound)
    ensures Stalled(Exec(threads, run), Increment(turn), turn, turn + 1, FirstHolds)
  {
    Extend(threads, r0, TakeTicket(1), bound);
    var r1 := r0 + [TakeTicket(1)];
    assert Exec(threads, r1).s.pcs[1] == Spinning(turn);
    Extend(threads, r1, PollOwner(1), bound);
    run := r1 + [PollOwner(1)];
  }

  lemma Leave(threads: nat, r0: seq<Event>, turn: nat, bound: nat) returns (run: seq<Event>)
    requires 2 <= threads <= turn + 1 < MODULUS && turn + 1 - (threads - 1) <= bound
    requires Bounded(threads, r0, bound)
    requires Stalled(Exec(threads, r0), turn + 1, turn, turn + 1, FirstHolds)
    ensures Bounded(threads, run, bound)
    ensures Stalled(Exec(threads, run), turn + 1, turn + 1, turn + 1, AllIdle)
  {
    Extend(threads, r0, Release(1), bound);
    run := r0 + [Release(1)];
  }

  lemma {:induction false} Spin(threads: nat, turn: nat, bound: nat) returns (run: seq<Event>)
    requires 2 <= threads <= turn + 1 <= MODULUS && turn - (threads - 1) <= bound
    ensures Bounded(threads, run, bound)
    ensures Stalled(Exec(threads, run), turn, turn, turn, AllIdle)
    decreases turn
  {
    if turn == threads - 1 {
      run := Drain(threads, threads - 1, bound);
    } else {
      run := Spin(threads, turn - 1, bound);
      run := Enter(threads, run, turn - 1, bound);
      run := Leave(threads, run, turn - 1, bound);
    }
  }

  /** With Next wrapped round to 0 and thread 1 inside, thread 0 believes the lock is free. */
  lemma FalseMatch(threads: nat, r0: seq<Event>, bound: nat) returns (run: seq<Event>)
    requires 2 <= threads <= MODULUS < threads + bound
    requires Bounded(threads, r0, bound)
    requires Stalled(Exec(threads, r0), 0, MODULUS - 1, MODULUS, FirstHolds)
    ensures Bounded(threads, run, bound)
    ensures
      var c := Exec(threads, run);
      c.s.next == 0 && c.s.pcs[0] == TryMatched(0) && c.s.pcs[1].Holding?
      && forall i :: 1 <= i < threads ==> !InTry(c.s.pcs[i])
  {
    Extend(threads, r0, TryLoadNext(0), bound);
    run := r0 + [TryLoadNext(0)];
  }

  /** After 2^32 tickets the stalled TryLock takes the full counter for an empty queue. */
  lemma OutrunTry(threads: nat, bound: nat) returns (run: seq<Event>)
    requires 2 <= threads <= MODULUS < threads + bound
    ensures Bounded(threads, run, bound)
    ensures !MutualExclusion(Exec(threads, run).s)
  {
    var r0 := Spin(threads, MODULUS - 1, bound);
    var r1 := Enter(threads, r0, MODULUS - 1, bound);
    var r2 := FalseMatch(threads, r1, bound);
    var s := Step(Exec(threads, r2).s, TrySwap(0));
    assert s.pcs[0].Holding? && s.pcs[1].Holding?;
    Extend(threads, r2, TrySwap(0), bound);
    run := r2 + [TrySwap(0)];
  }

  /** The exact limit of the lock, for every number of threads and every bound. */
  lemma ExclusiveExactly(threads: nat, bound: nat)
    requires threads >= 2
    ensures AlwaysExclusive(threads, bound) <==> threads + bound <= MODULUS
  {
    if threads + bound <= MODULUS {
      forall run | Bounded(threads, run, bound)
        ensures MutualExclusion(Exec(threads, run).s)
      {
        TicketLockProofs.MutualExclusionHolds(threads, run, bound);
      }
    } else if threads > MODULUS {
      var run := TooManyThreads(threads, bound);
      assert !AlwaysExclusive(threads, bound);
    } else {
      var run := OutrunTry(threads, bound);
      assert !AlwaysExclusive(threads, bound);
    }
  }
}
