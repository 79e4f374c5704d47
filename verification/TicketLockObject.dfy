/**
  The lock as a memory object: two 32-bit words changed in place by atomic instructions,
  and threads that execute the code of Lock, TryLock and Unlock on it one instruction at a
  time.  Driving the object by any interleaving computes the state of the transition system.
 */
module TicketLockObject {
  import opened TicketLock
  import TicketLockProofs

  class TicketSpinLock {
    var Next: nat
    var Owner: nat

    constructor ()
      ensures Next == 0 && Owner == 0
    {
      Next, Owner := 0, 0;
    }

    method FetchAddNext() returns (before: nat)
      modifies this`Next
      ensures before == old(Next) && Next == Increment(before)
    {
      before := Next;
      Next := Increment(before);
    }

    method FetchAddOwner() returns (before: nat)
      modifies this`Owner
      ensures before == old(Owner) && Owner == Increment(before)
    {
      before := Owner;
      Owner := Increment(before);
    }

    method CompareExchangeNext(expected: nat, desired: nat) returns (swapped: bool)
      modifies this`Next
      ensures swapped == (old(Next) == expected)
      ensures Next == if swapped then desired else old(Next)
    {
      swapped := Next == expected;
      if swapped {
        Next := desired;
      }
    }
  }

  ghost function Snapshot(l: TicketSpinLock, pcs: array<Pc>): State
    reads l, pcs
  {
    State(l.Next, l.Owner, pcs[..])
  }

  /** One instruction of one thread's code. */
  method Execute(l: TicketSpinLock, pcs: array<Pc>, e: Event)
    requires Enabled(State(l.Next, l.Owner, pcs[..]), e)
    modifies l, pcs
    ensures Snapshot(l, pcs) == Step(old(Snapshot(l, pcs)), e)
  {
    var i := e.thread;
    match e
    case TakeTicket(_) =>
      var t := l.FetchAddNext();
      pcs[i] := Spinning(t);
    case PollOwner(_) =>
      var o := l.Owner;
      if o == pcs[i].ticket {
        pcs[i] := Holding;
      }
    case TryLoadOwner(_) =>
      pcs[i] := TryLoaded(l.Owner);
    case TryLoadNext(_) =>
      var o, n := pcs[i].seen, l.Next;
      if o != n {
        pcs[i] := Idle;
      } else {
        pcs[i] := TryMatched(n);
      }
    case TrySwap(_) =>
      var n := pcs[i].seen;
      var swapped := l.CompareExchangeNext(n, Increment(n));
      pcs[i] := if swapped then Holding else Idle;
    case Release(_) =>
      var _ := l.FetchAddOwner();
      pcs[i] := Idle;
  }

  /** Any interleaving, executed on the object, ends in a state with at most one holder. */
  method Interleave(threads: nat, run: seq<Event>, ghost bound: nat) returns (l: TicketSpinLock, pcs: array<Pc>)
    ensures fresh(l) && fresh(pcs)
    ensures Snapshot(l, pcs) == Exec(threads, run).s
    ensures threads + bound <= MODULUS && Bounded(threads, run, bound) ==> MutualExclusion(Snapshot(l, pcs))
  {
    l := new TicketSpinLock();
    pcs := new Pc[threads](_ => Idle);
    assert pcs[..] == Init(threads).pcs;
    for k := 0 to |run|
      invariant fresh(l) && fresh(pcs)
      invariant Snapshot(l, pcs) == Exec(threads, run[..k]).s
    {
      assert run[..k + 1][..k] == run[..k];
      if Enabled(State(l.Next, l.Owner, pcs[..]), run[k]) {
        Execute(l, pcs, run[k]);
      }
    }
    assert run[..|run|] == run;
    if threads + bound <= MODULUS && Bounded(threads, run, bound) {
      TicketLockProofs.MutualExclusionHolds(threads, run, bound);
    }
  }
}
