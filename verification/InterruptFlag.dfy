/**
  The interrupt flag under LockIRQSave and UnlockIRQRestore on one CPU, over distinct locks.
  Each acquire saves the flag and clears it; each release sets it again when the saved copy
  was set, and otherwise leaves it alone.
 */
module InterruptFlag {
  import opened Sequences

  const IF_MASK: bv64 := 0x200

  predicate Enabled(flags: bv64) {
    flags & IF_MASK != 0
  }

  /** The flags register of one CPU. */
  class Cpu {
    var RFlags: bv64

    method SaveAndDisable() returns (saved: bv64)
      modifies this
      ensures saved == old(RFlags)
      ensures !Enabled(RFlags) && RFlags | IF_MASK == old(RFlags) | IF_MASK
    {
      saved := RFlags;
      RFlags := RFlags & !(1 << 9);
    }

    method Restore(saved: bv64)
      modifies this
      ensures Enabled(RFlags) == (Enabled(saved) || old(Enabled(RFlags)))
      ensures RFlags | IF_MASK == old(RFlags) | IF_MASK
    {
      if saved & (1 << 9) != 0 {
        RFlags := RFlags | (1 << 9);
      }
    }
  }

  // ------------------------------------------------------------- whole runs

  datatype Context = Context(lock: nat, saved: bool)

  /** enabled: the flag.  held: contexts in the order in which they were acquired. */
  datatype State = State(enabled: bool, held: seq<Context>)

  datatype Event = Acquire(lock: nat) | Release(index: nat)

  predicate Holds(s: State, lock: nat) {
    exists i :: 0 <= i < |s.held| && s.held[i].lock == lock
  }

  /** A second acquire of a held lock would spin for ever on one CPU, so it does not occur. */
  predicate CanHappen(s: State, e: Event) {
    match e
    case Acquire(l) => !Holds(s, l)
    case Release(i) => i < |s.held|
  }

  function Step(s: State, e: Event): State {
    if !CanHappen(s, e) then s else
    match e
    case Acquire(l) => State(false, s.held + [Context(l, s.enabled)])
    case Release(i) => State(s.enabled || s.held[i].saved, Without(s.held, i))
  }

  function Exec(start: bool, run: seq<Event>): State
    decreases |run|
  {
    if run == [] then State(start, []) else Step(Exec(start, run[..|run| - 1]), run[|run| - 1])
  }

  /** What LockIRQSave hands back: the lock and the whole saved register. */
  datatype LockedWithIRQ = LockedWithIRQ(lock: nat, saved: bv64)

  function Abstract(held: seq<LockedWithIRQ>): seq<Context> {
    seq(|held|, i requires 0 <= i < |held| => Context(held[i].lock, Enabled(held[i].saved)))
  }

  /** A CPU that executes the calls of a run has exactly the interrupt flag the run describes. */
  method Drive(cpu: Cpu, run: seq<Event>) returns (held: seq<LockedWithIRQ>)
    modifies cpu
    ensures State(Enabled(cpu.RFlags), Abstract(held)) == Exec(old(Enabled(cpu.RFlags)), run)
  {
    held := [];
    for k := 0 to |run|
      invariant State(Enabled(cpu.RFlags), Abstract(held)) == Exec(old(Enabled(cpu.RFlags)), run[..k])
    {
      assert run[..k + 1][..k] == run[..k];
      ghost var before := Abstract(held);
      match run[k]
      case Acquire(l) =>
        if !exists i :: 0 <= i < |held| && held[i].lock == l {
          assert !Holds(State(Enabled(cpu.RFlags), before), l);
          var saved := cpu.SaveAndDisable();
          held := held + [LockedWithIRQ(l, saved)];
          assert Abstract(held) == before + [Context(l, Enabled(saved))];
        } else {
          var i :| 0 <= i < |held| && held[i].lock == l;
          assert before[i].lock == l;
        }
      case Release(i) =>
        if i < |held| {
          cpu.Restore(held[i].saved);
          held := held[..i] + held[i + 1..];
          assert Abstract(held) == Without(before, i);
        }
    }
    assert run[..|run|] == run;
  }

  function Bit(b: bool): nat {
    if b then 1 else 0
  }

  function Promise(c: Context): nat {
    Bit(c.saved)
  }

  /** Number of outstanding promises to enable interrupts again. */
  function Owed(held: seq<Context>): nat {
    Sum(held, Promise)
  }

  /** The flag and the promises to restore it always add up to the flag at the start. */
  lemma {:induction false} FlagConserved(start: bool, run: seq<Event>)
    ensures var s := Exec(start, run); Bit(s.enabled) + Owed(s.held) == Bit(start)
    decreases |run|
  {
    if run != [] {
      var s, e := Exec(start, run[..|run| - 1]), run[|run| - 1];
      FlagConserved(start, run[..|run| - 1]);
      if CanHappen(s, e) {
        match e
        case Acquire(l) => SumAppend(s.held, Context(l, s.enabled), Promise);
        case Release(i) => SumWithout(s.held, i, Promise);
      }
    }
  }

  /** Once every lock is released the flag is back at its starting value, in whatever order they were released. */
  lemma FlagRestored(start: bool, run: seq<Event>)
    requires Exec(start, run).held == []
    ensures Exec(start, run).enabled == start
  {
    FlagConserved(start, run);
  }

  ghost predicate Protected(s: State) {
    s.held != [] ==> !s.enabled
  }

  /** Interrupts are off at every point of the run at which some lock is held. */
  ghost predicate AlwaysProtected(start: bool, run: seq<Event>)
    decreases |run|
  {
    && Protected(Exec(start, run))
    && (run != [] ==> AlwaysProtected(start, run[..|run| - 1]))
  }

  /** This release turns interrupts on although another lock is still held. */
  predicate EarlyEnable(s: State, e: Event) {
    e.Release? && CanHappen(s, e) && s.held[e.index].saved && |s.held| > 1
  }

  /** Every context that saved an enabled flag is released after all others. */
  ghost predicate EnablerLast(start: bool, run: seq<Event>)
    decreases |run|
  {
    run != [] ==>
      && EnablerLast(start, run[..|run| - 1])
      && !EarlyEnable(Exec(start, run[..|run| - 1]), run[|run| - 1])
  }

  /** The exact condition under which no lock is ever held with interrupts on. */
  lemma {:induction false} ProtectedExactly(start: bool, run: seq<Event>)
    ensures AlwaysProtected(start, run) <==> EnablerLast(start, run)
    decreases |run|
  {
    if run != [] {
      ProtectedExactly(start, run[..|run| - 1]);
    }
  }

  /** Properly bracketed: only the lock acquired last is released. */
  ghost predicate Nested(start: bool, run: seq<Event>)
    decreases |run|
  {
    run != [] ==>
      var s, e := Exec(start, run[..|run| - 1]), run[|run| - 1];
      && Nested(start, run[..|run| - 1])
      && (e.Release? && CanHappen(s, e) ==> e.index == |s.held| - 1)
  }

  lemma {:induction false} NestedShape(start: bool, run: seq<Event>)
    requires Nested(start, run)
    ensures
      var s := Exec(start, run);
      && s.enabled == (start && s.held == [])
      && (forall i :: 1 <= i < |s.held| ==> !s.held[i].saved)
      && (s.held != [] ==> s.held[0].saved == start)
    ensures EnablerLast(start, run)
    decreases |run|
  {
    if run != [] {
      NestedShape(start, run[..|run| - 1]);
    }
  }

  /** Bracketed use keeps interrupts off from the first acquire to the last release and then restores them. */
  lemma NestedIsProtected(start: bool, run: seq<Event>)
    requires Nested(start, run)
    ensures AlwaysProtected(start, run)
    ensures Exec(start, run).enabled == (start && Exec(start, run).held == [])
  {
    NestedShape(start, run);
    ProtectedExactly(start, run);
  }

  /** Released in the order of acquisition instead, two locks leave one held with interrupts on. */
  lemma FirstReleasedFirst()
    ensures !AlwaysProtected(true, [Acquire(0), Acquire(1), Release(0)])
  {
    var run := [Acquire(0), Acquire(1), Release(0)];
    assert run[..2] == [Acquire(0), Acquire(1)];
    assert run[..2][..1] == [Acquire(0)];
    assert Exec(true, run[..2][..1][..0]) == State(true, []);
    assert Exec(true, run[..2][..1]) == State(false, [Context(0, true)]);
    assert Exec(true, run[..2]) == State(false, [Context(0, true), Context(1, false)]);
  }
}
