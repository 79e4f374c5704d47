/**
  The cooperative scheduler of one CPU as a state machine: Yield, thread creation and thread
  exit, in any order, from the state Init leaves behind.
 */
module SchedulerModel {
  import opened RunQueues

  const BOOTSTRAP: nat := 0   // created first by Init
  const IDLE: nat := 1        // created second

  /** current: the thread on the CPU.  queue: the run queue.  states: by creation number. */
  datatype Sched = Sched(current: nat, queue: seq<nat>, states: seq<ThreadState>)

  /** Create(false) is a creation whose stack allocation failed.  Exit: a worker's entry returned. */
  datatype Event = Yield | Create(ok: bool) | Exit

  predicate Worker(t: nat) {
    t != BOOTSTRAP && t != IDLE
  }

  function AfterInit(): Sched {
    Sched(BOOTSTRAP, [], [Running, Ready])
  }

  predicate Known(s: Sched) {
    && |s.states| >= 2 && s.current < |s.states|
    && forall i :: 0 <= i < |s.queue| ==> s.queue[i] < |s.states|
  }

  function EnqueueReady(s: Sched, t: nat): Sched
    requires t < |s.states|
  {
    s.(states := s.states[t := Ready], queue := s.queue + [t])
  }

  function Next(s: Sched): nat {
    if s.queue == [] then IDLE else s.queue[0]
  }

  function SwitchTo(s: Sched, next: nat): Sched
    requires next < |s.states|
  {
    if next == s.current then s else s.(states := s.states[next := Running], current := next)
  }

  function Requeue(s: Sched): Sched
    requires Known(s)
  {
    if Worker(s.current) && s.states[s.current] == Running then EnqueueReady(s, s.current) else s
  }

  function YieldStep(s: Sched): (s': Sched)
    requires Known(s)
    ensures Known(s') && |s'.states| == |s.states|
  {
    var r := Requeue(s);
    SwitchTo(r.(queue := if r.queue == [] then [] else r.queue[1..]), Next(r))
  }

  function Step(s: Sched, e: Event): (s': Sched)
    requires Known(s)
    ensures Known(s')
  {
    match e
    case Yield => YieldStep(s)
    case Create(ok) =>
      if ok then s.(states := s.states + [Ready], queue := s.queue + [|s.states|]) else s
    case Exit =>
      if Worker(s.current) then YieldStep(s.(states := s.states[s.current := Dead])) else s
  }

  function Run(s: Sched, run: seq<Event>): (s': Sched)
    requires Known(s)
    ensures Known(s')
    decreases |run|
  {
    if run == [] then s else Step(Run(s, run[..|run| - 1]), run[|run| - 1])
  }

  // -------------------------------------------------------------- invariant

  ghost predicate QueueInv(s: Sched)
    requires Known(s)
  {
    && (forall i :: 0 <= i < |s.queue| ==>
          Worker(s.queue[i]) && s.queue[i] != s.current && s.states[s.queue[i]] == Ready)
    && (forall i, j :: 0 <= i < j < |s.queue| ==> s.queue[i] != s.queue[j])
  }

  ghost predicate StatesInv(s: Sched)
    requires Known(s)
  {
    && (s.states[s.current] == Running || (Worker(s.current) && s.states[s.current] == Ready))
    && s.states[IDLE] != Dead
    && forall t :: 0 <= t < |s.states| && Worker(t) && s.states[t] == Running ==> t == s.current
  }

  ghost predicate Inv(s: Sched) {
    Known(s) && QueueInv(s) && StatesInv(s)
  }

  /** A Yield with threads waiting: the head of the queue runs, the yielding worker goes to the tail. */
  lemma YieldBusy(s: Sched)
    requires Known(s) && s.queue != [] && s.queue[0] != s.current
    ensures
      var requeued := Worker(s.current) && s.states[s.current] == Running;
      var kept := if requeued then s.states[s.current := Ready] else s.states;
      YieldStep(s) == Sched(s.queue[0], s.queue[1..] + (if requeued then [s.current] else []), kept[s.queue[0] := Running])
  {
    if Worker(s.current) && s.states[s.current] == Running {
      assert (s.queue + [s.current])[1..] == s.queue[1..] + [s.current];
    } else {
      assert s.queue[1..] + [] == s.queue[1..];
    }
  }

  /** A Yield with an empty queue: a running worker stays, marked Ready; anyone else gives way to idle. */
  lemma YieldEmpty(s: Sched)
    requires Known(s) && s.queue == []
    ensures YieldStep(s) ==
            if Worker(s.current) && s.states[s.current] == Running
            then s.(states := s.states[s.current := Ready])
            else SwitchTo(s, IDLE)
  {
  }

  /** The invariant, but the current worker may already be Dead. */
  ghost predicate Leaving(s: Sched) {
    && Known(s) && QueueInv(s) && s.states[IDLE] != Dead
    && (s.states[s.current] == Running || (Worker(s.current) && s.states[s.current] in {Ready, Dead}))
    && forall t :: 0 <= t < |s.states| && Worker(t) && s.states[t] == Running ==> t == s.current
  }

  lemma BusyQueueInv(s: Sched)
    requires Leaving(s) && s.queue != []
    ensures QueueInv(YieldStep(s))
  {
    YieldBusy(s);
    var s' := YieldStep(s);
    forall i | 0 <= i < |s'.queue|
      ensures s'.queue[i] == if i + 1 < |s.queue| then s.queue[i + 1] else s.current
    {
    }
  }

  lemma BusyStatesInv(s: Sched)
    requires Leaving(s) && s.queue != []
    ensures StatesInv(YieldStep(s))
  {
    YieldBusy(s);
  }

  lemma YieldInv(s: Sched)
    requires Leaving(s)
    ensures Inv(YieldStep(s))
  {
    if s.queue == [] {
      YieldEmpty(s);
    } else {
      BusyQueueInv(s);
      BusyStatesInv(s);
    }
  }

  lemma ExitLeaves(s: Sched)
    requires Inv(s) && Worker(s.current)
    ensures Leaving(s.(states := s.states[s.current := Dead]))
  {
  }

  lemma CurrentNotQueued(s: Sched)
    requires Known(s) && QueueInv(s)
    ensures s.current !in s.queue
  {
  }

  lemma NewNotQueued(s: Sched)
    requires Known(s)
    ensures |s.states| !in s.queue
  {
  }

  /** A creation is the new thread, Ready, followed by EnqueueReady. */
  lemma CreateIsEnqueue(s: Sched)
    requires Known(s)
    ensures EnqueueReady(s.(states := s.states + [Ready]), |s.states|) == Step(s, Create(true))
  {
    assert (s.states + [Ready])[|s.states| := Ready] == s.states + [Ready];
  }

  lemma StepInv(s: Sched, e: Event)
    requires Inv(s)
    ensures Inv(Step(s, e))
  {
    match e
    case Yield => YieldInv(s);
    case Create(_) =>
    case Exit =>
      if Worker(s.current) {
        ExitLeaves(s);
        YieldInv(s.(states := s.states[s.current := Dead]));
      }
  }

  /**
    In every reachable state the queue has no duplicates, holds only Ready workers and never
    the current thread, the idle thread, the bootstrap thread or a Dead one.
   */
  lemma {:induction false} InvRun(s: Sched, run: seq<Event>)
    requires Inv(s)
    ensures Inv(Run(s, run))
    decreases |run|
  {
    if run != [] {
      InvRun(s, run[..|run| - 1]);
      StepInv(Run(s, run[..|run| - 1]), run[|run| - 1]);
    }
  }

  lemma InitInv()
    ensures Inv(AfterInit())
  {
  }

  lemma InvFromInit(run: seq<Event>)
    ensures Inv(Run(AfterInit(), run))
  {
    InitInv();
    InvRun(AfterInit(), run);
  }

  /** Once Dead, a thread is never current and never queued again. */
  lemma {:induction false} DeadForever(s: Sched, run: seq<Event>, t: nat)
    requires Inv(s) && t < |s.states| && s.states[t] == Dead
    ensures
      var s' := Run(s, run);
      t < |s'.states| && s'.states[t] == Dead && s'.current != t && t !in s'.queue
    decreases |run|
  {
    InvRun(s, run);
    if run != [] {
      DeadForever(s, run[..|run| - 1], t);
      InvRun(s, run[..|run| - 1]);
    }
  }

  /** Once another thread has the CPU, the bootstrap thread never gets it back. */
  lemma {:induction false} BootstrapNeverReturns(s: Sched, run: seq<Event>)
    requires Inv(s) && s.current != BOOTSTRAP
    ensures Run(s, run).current != BOOTSTRAP
    decreases |run|
  {
    if run != [] {
      BootstrapNeverReturns(s, run[..|run| - 1]);
      InvRun(s, run[..|run| - 1]);
    }
  }

  // ------------------------------------------------------------------- exits

  /** At some point of the run the thread was on the CPU and exited. */
  ghost predicate Exited(run: seq<Event>, t: nat) {
    exists k :: 0 <= k < |run| && run[k].Exit? && Run(AfterInit(), run[..k]).current == t
  }

  lemma {:induction false} ExitedNext(run: seq<Event>, e: Event, t: nat)
    ensures Exited(run + [e], t) <==> Exited(run, t) || (e.Exit? && Run(AfterInit(), run).current == t)
  {
    var more := run + [e];
    forall k | 0 <= k <= |run|
      ensures more[..k] == run[..k]
    {
    }
    assert run[..|run|] == run;
    if Exited(run, t) {
      var k :| 0 <= k < |run| && run[k].Exit? && Run(AfterInit(), run[..k]).current == t;
      assert more[k].Exit? && Run(AfterInit(), more[..k]).current == t;
    }
    if e.Exit? && Run(AfterInit(), run).current == t {
      assert more[|run|].Exit? && Run(AfterInit(), more[..|run|]).current == t;
    }
    if Exited(more, t) {
      var k :| 0 <= k < |more| && more[k].Exit? && Run(AfterInit(), more[..k]).current == t;
      assert k < |run| ==> run[k].Exit? && Run(AfterInit(), run[..k]).current == t;
    }
  }

  predicate IsDead(s: Sched, t: nat) {
    t < |s.states| && s.states[t] == Dead
  }

  lemma YieldDead(s: Sched, t: nat)
    requires Leaving(s)
    ensures IsDead(YieldStep(s), t) <==> IsDead(s, t)
  {
    if s.queue == [] {
      YieldEmpty(s);
    } else {
      YieldBusy(s);
    }
  }

  lemma StepDead(s: Sched, e: Event, t: nat)
    requires Inv(s) && Worker(t)
    ensures IsDead(Step(s, e), t) <==> IsDead(s, t) || (e.Exit? && s.current == t)
  {
    match e
    case Yield => YieldDead(s, t);
    case Create(_) =>
    case Exit =>
      if Worker(s.current) {
        ExitLeaves(s);
        YieldDead(s.(states := s.states[s.current := Dead]), t);
      }
  }

  /** A worker is Dead exactly when it has exited. */
  lemma {:induction false} DeadExactly(run: seq<Event>, t: nat)
    requires Worker(t)
    ensures IsDead(Run(AfterInit(), run), t) <==> Exited(run, t)
    decreases |run|
  {
    if run != [] {
      var before, e := run[..|run| - 1], run[|run| - 1];
      DeadExactly(before, t);
      InvFromInit(before);
      StepDead(Run(AfterInit(), before), e, t);
      ExitedNext(before, e, t);
      assert before + [e] == run;
    }
  }

  /** A worker that exits is Dead from then on, whatever follows, and never on the CPU or in the queue again. */
  lemma {:induction false} ExitIsFinal(run: seq<Event>, rest: seq<Event>)
    requires Worker(Run(AfterInit(), run).current)
    ensures
      var t, s := Run(AfterInit(), run).current, Run(AfterInit(), run + [Exit] + rest);
      IsDead(s, t) && s.current != t && t !in s.queue
  {
    var all := run + [Exit] + rest;
    assert all[..|run|] == run && all[|run|].Exit?;
    DeadExactly(all, Run(AfterInit(), run).current);
    InvFromInit(all);
  }

  function Creations(run: seq<Event>): nat {
    if run == [] then 0 else Creations(run[..|run| - 1]) + (if run[|run| - 1] == Create(true) then 1 else 0)
  }

  /** Besides bootstrap and idle there are exactly the threads created, dead or alive. */
  lemma {:induction false} ThreadsCounted(run: seq<Event>)
    ensures |Run(AfterInit(), run).states| == 2 + Creations(run)
    decreases |run|
  {
    if run != [] {
      ThreadsCounted(run[..|run| - 1]);
    }
  }

  // ------------------------------------------------------------ no starvation

  /** Number of times the CPU was given up during the run. */
  function Switches(s: Sched, run: seq<Event>): nat
    requires Known(s)
    decreases |run|
  {
    if run == [] then 0
    else
      var before, e := run[..|run| - 1], run[|run| - 1];
      Switches(s, before) +
      (if e.Yield? || (e.Exit? && Worker(Run(s, before).current)) then 1 else 0)
  }

  lemma SwitchTakesHead(s: Sched, e: Event)
    requires Inv(s) && s.queue != [] && (e.Yield? || (e.Exit? && Worker(s.current)))
    ensures
      var s' := Step(s, e);
      && s'.current == s.queue[0]
      && s.queue[1..] <= s'.queue
  {
    YieldBusy(if e.Exit? then s.(states := s.states[s.current := Dead]) else s);
  }

  /**
    A thread at queue position k moves up one place with every switch and gets the CPU at
    exactly the (k+1)-th, whatever creations, exits and re-enqueues happen meanwhile.
   */
  lemma {:induction false} NoStarvation(s: Sched, run: seq<Event>, k: nat)
    requires Inv(s) && k < |s.queue| && Switches(s, run) <= k + 1
    ensures
      var s', n := Run(s, run), Switches(s, run);
      && (n <= k ==> k - n < |s'.queue| && s'.queue[k - n] == s.queue[k])
      && (n == k + 1 ==> s'.current == s.queue[k])
    decreases |run|
  {
    if run != [] {
      var before, e := run[..|run| - 1], run[|run| - 1];
      NoStarvation(s, before, k);
      InvRun(s, before);
      var m := Run(s, before);
      if e.Yield? || (e.Exit? && Worker(m.current)) {
        SwitchTakesHead(m, e);
      }
    }
  }

  // ------------------------------------------------------------- conservation

  /** Every created worker that is not Dead is on the CPU or in the queue. */
  ghost predicate Conserved(s: Sched) {
    forall t :: 0 <= t < |s.states| && Worker(t) && s.states[t] != Dead ==> t == s.current || t in s.queue
  }

  ghost predicate AlwaysConserved(run: seq<Event>)
    decreases |run|
  {
    Conserved(Run(AfterInit(), run)) && (run != [] ==> AlwaysConserved(run[..|run| - 1]))
  }

  /** The latest switch, creations aside, was a worker's Yield that found the queue empty. */
  predicate YieldedAlone(run: seq<Event>)
    decreases |run|
  {
    run != [] &&
      var before, e := run[..|run| - 1], run[|run| - 1];
      match e
      case Create(_) => YieldedAlone(before)
      case Yield => var s := Run(AfterInit(), before); Worker(s.current) && s.queue == []
      case Exit => !Worker(Run(AfterInit(), before).current) && YieldedAlone(before)
  }

  /** No worker yields again right after a Yield that found the queue empty. */
  predicate NoSecondLoneYield(run: seq<Event>)
    decreases |run|
  {
    run != [] ==>
      var before, e := run[..|run| - 1], run[|run| - 1];
      NoSecondLoneYield(before) && !(e.Yield? && YieldedAlone(before))
  }

  /** A worker that yields to itself stays on the CPU marked Ready instead of Running. */
  ghost predicate LoneShape(run: seq<Event>) {
    var s := Run(AfterInit(), run);
    Inv(s) && Conserved(s)
    && (YieldedAlone(run) <==> Worker(s.current) && s.states[s.current] == Ready)
  }

  lemma LoneStep(run: seq<Event>, e: Event)
    requires LoneShape(run) && !(e.Yield? && YieldedAlone(run))
    ensures LoneShape(run + [e])
  {
    assert (run + [e])[..|run + [e]| - 1] == run;
    var s := Run(AfterInit(), run);
    StepInv(s, e);
    match e
    case Yield => ConservedYield(s);
    case Create(ok) => ConservedCreate(s, ok);
    case Exit => ConservedExit(s);
  }

  lemma ConservedYield(s: Sched)
    requires Inv(s) && Conserved(s) && (Worker(s.current) ==> s.states[s.current] == Running)
    ensures
      var s' := Step(s, Yield);
      && Conserved(s')
      && (Worker(s'.current) && s'.states[s'.current] == Ready <==> Worker(s.current) && s.queue == [])
  {
    if s.queue == [] {
      YieldEmpty(s);
    } else {
      YieldBusy(s);
      StillQueued(s.queue);
    }
  }

  lemma StillQueued(q: seq<nat>)
    requires q != []
    ensures forall t :: t in q ==> t == q[0] || t in q[1..]
  {
    assert q == [q[0]] + q[1..];
  }

  lemma ConservedCreate(s: Sched, ok: bool)
    requires Inv(s) && Conserved(s)
    ensures
      var s' := Step(s, Create(ok));
      Conserved(s') && s'.current == s.current && s'.states[s.current] == s.states[s.current]
  {
  }

  lemma ConservedExit(s: Sched)
    requires Inv(s) && Conserved(s)
    ensures
      var s' := Step(s, Exit);
      && Conserved(s')
      && (Worker(s.current) && Worker(s'.current) ==> s'.states[s'.current] == Running)
      && (!Worker(s.current) ==> s' == s)
  {
    if Worker(s.current) {
      var d := s.(states := s.states[s.current := Dead]);
      if s.queue == [] {
        YieldEmpty(d);
      } else {
        YieldBusy(d);
        StillQueued(s.queue);
      }
    }
  }

  lemma WastedYield(s: Sched)
    requires Inv(s) && Worker(s.current) && s.states[s.current] == Ready
    ensures !Conserved(Step(s, Yield))
  {
    var s' := Step(s, Yield);
    assert s'.states[s.current] == Ready && s'.current != s.current && s.current !in s'.queue;
  }

  lemma {:induction false} LoneRun(run: seq<Event>)
    requires NoSecondLoneYield(run)
    ensures LoneShape(run)
    decreases |run|
  {
    if run == [] {
      InitInv();
    } else {
      var before := run[..|run| - 1];
      LoneRun(before);
      LoneStep(before, run[|run| - 1]);
      assert before + [run[|run| - 1]] == run;
    }
  }

  /** Exactly when no thread is ever lost: no worker yields twice in a row with nobody else ready. */
  lemma {:induction false} ConservationExactly(run: seq<Event>)
    ensures AlwaysConserved(run) <==> NoSecondLoneYield(run)
    decreases |run|
  {
    if run == [] {
      InitInv();
    } else {
      var before, e := run[..|run| - 1], run[|run| - 1];
      ConservationExactly(before);
      if NoSecondLoneYield(run) {
        LoneRun(run);
      } else if NoSecondLoneYield(before) {
        LoneRun(before);
        WastedYield(Run(AfterInit(), before));
      }
    }
  }

  /** Every Yield of a worker finds somebody else ready. */
  predicate BusyYields(run: seq<Event>)
    decreases |run|
  {
    run != [] ==>
      var before, e := run[..|run| - 1], run[|run| - 1];
      && BusyYields(before)
      && (e.Yield? && Worker(Run(AfterInit(), before).current) ==> Run(AfterInit(), before).queue != [])
  }

  lemma {:induction false} BusyNeverAlone(run: seq<Event>)
    requires BusyYields(run)
    ensures !YieldedAlone(run) && NoSecondLoneYield(run)
    decreases |run|
  {
    if run != [] {
      BusyNeverAlone(run[..|run| - 1]);
    }
  }

  /** While yields are busy no thread is lost and the worker on the CPU is marked Running. */
  lemma BusyRunsConserve(run: seq<Event>)
    requires BusyYields(run)
    ensures var s := Run(AfterInit(), run); Conserved(s) && (Worker(s.current) ==> s.states[s.current] == Running)
  {
    BusyNeverAlone(run);
    LoneRun(run);
  }

  /** The shortest way to lose a thread: a lone worker that yields twice. */
  lemma LoneWorkerLost()
    ensures !AlwaysConserved([Create(true), Yield, Yield, Yield])
  {
    var run := [Create(true), Yield, Yield, Yield];
    assert run[..3] == [Create(true), Yield, Yield];
    assert run[..3][..2] == [Create(true), Yield];
    assert run[..3][..2][..1] == [Create(true)];
    assert run[..3][..2][..1][..0] == [];
    assert Run(AfterInit(), run[..3][..2][..1]) == Sched(0, [2], [Running, Ready, Ready]);
    assert Run(AfterInit(), run[..3][..2]) == Sched(2, [], [Running, Ready, Running]);
    assert YieldedAlone(run[..3]);
    ConservationExactly(run);
  }

  // --------------------------------------------------------------- round robin

  function Yields(s: Sched, n: nat): (s': Sched)
    requires Known(s)
    ensures Known(s')
  {
    if n == 0 then s else YieldStep(Yields(s, n - 1))
  }

  /** The current thread followed by the queue. */
  function Ring(s: Sched): seq<nat> {
    [s.current] + s.queue
  }

  /** The worker on the CPU is the only one Running and others wait. */
  ghost predicate Busy(s: Sched) {
    Inv(s) && Worker(s.current) && s.states[s.current] == Running && s.queue != []
  }

  lemma RotateOnce(s: Sched)
    requires Busy(s)
    ensures Busy(YieldStep(s))
    ensures Ring(YieldStep(s)) == Ring(s)[1..] + Ring(s)[..1]
    ensures YieldStep(s).states[s.queue[0] := Ready] == s.states[s.current := Ready]
  {
    YieldInv(s);
    YieldBusy(s);
    var s' := YieldStep(s);
    assert Ring(s)[1..] == s.queue && Ring(s)[..1] == [s.current];
    assert s'.states[s.queue[0] := Ready] == s.states[s.current := Ready];
  }

  lemma RotateMore(ring: seq<nat>, n: nat)
    requires 0 < n <= |ring|
    ensures var r := ring[n - 1..] + ring[..n - 1]; r[1..] + r[..1] == ring[n..] + ring[..n]
  {
    var r := ring[n - 1..] + ring[..n - 1];
    assert r[1..] == ring[n..] + ring[..n - 1] && r[..1] == [ring[n - 1]];
    assert ring[..n] == ring[..n - 1] + [ring[n - 1]];
  }

  lemma {:induction false} Rotation(s: Sched, n: nat)
    requires Busy(s) && n <= |Ring(s)|
    ensures Busy(Yields(s, n))
    ensures Ring(Yields(s, n)) == Ring(s)[n..] + Ring(s)[..n]
    ensures Yields(s, n).states[Yields(s, n).current := Ready] == s.states[s.current := Ready]
  {
    if n == 0 {
      assert Ring(s)[0..] + Ring(s)[..0] == Ring(s);
    } else {
      Rotation(s, n - 1);
      var m := Yields(s, n - 1);
      RotateOnce(m);
      YieldBusy(m);
      RotateMore(Ring(s), n);
    }
  }

  /** Two or more workers that only yield are back where they started after as many yields as there are workers. */
  lemma RoundRobin(s: Sched)
    requires Busy(s)
    ensures Yields(s, |s.queue| + 1) == s
  {
    var n := |s.queue| + 1;
    Rotation(s, n);
    var s' := Yields(s, n);
    assert Ring(s)[n..] + Ring(s)[..n] == Ring(s);
    assert s'.current == Ring(s')[0] == s.current && s'.queue == Ring(s')[1..] == s.queue;
    SameStates(s.states, s'.states, s.current);
  }

  lemma SameStates(a: seq<ThreadState>, b: seq<ThreadState>, t: nat)
    requires t < |a| == |b| && a[t] == b[t] && a[t := Ready] == b[t := Ready]
    ensures a == b
  {
    forall i | 0 <= i < |a|
      ensures a[i] == b[i]
    {
      assert a[t := Ready][i] == b[t := Ready][i];
    }
  }
}
