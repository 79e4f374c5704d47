/**
  The scheduler as the kernel runs it: global pointers, thread objects whose State fields
  are rewritten, and the linked run queue.  Every operation is proved to be the
  corresponding step of the state machine.
 */
module Schedulers {
  import opened RunQueues
  import M = SchedulerModel

  /** Thread::CreateKernel, once the stack is there: a new thread, ready to run and not linked. */
  method CreateKernel(ghost id: nat) returns (t: Thread)
    ensures fresh(t) && t.Id == id && t.State == Ready && t.Next == null && t.Prev == null
  {
    t := new Thread(id);
    t.State := Ready;
  }

  class Scheduler {
    const RunQueue: RunQueue
    const Bootstrap: Thread
    const Idle: Thread
    var Current: Thread              // the per-CPU current thread
    ghost var Threads: seq<Thread>   // all threads, by creation number
    ghost var Repr: set<Thread>      // the same threads, as a footprint
    ghost var Model: M.Sched         // the state of the machine these objects stand for

    ghost predicate Pointers()
      reads this
    {
      && M.Known(Model) && |Threads| == |Model.states|
      && Bootstrap == Threads[M.BOOTSTRAP] && Idle == Threads[M.IDLE] && Current == Threads[Model.current]
      && forall i :: 0 <= i < |Threads| ==> Threads[i].Id == i && Threads[i] in Repr
    }

    ghost predicate StatesMatch()
      requires Pointers()
      reads this, Repr`State
    {
      forall i :: 0 <= i < |Threads| ==> Threads[i].State == Model.states[i]
    }

    ghost predicate QueueMatches()
      requires Pointers()
      reads this, RunQueue, (set x | x in RunQueue.Contents)`Next, (set x | x in RunQueue.Contents)`Prev
    {
      && RunQueue.Valid() && |RunQueue.Contents| == |Model.queue|
      && forall i :: 0 <= i < |Model.queue| ==> RunQueue.Contents[i] == Threads[Model.queue[i]]
    }

    ghost predicate Valid()
      reads this, Repr`State, RunQueue
      reads (set x | x in RunQueue.Contents)`Next, (set x | x in RunQueue.Contents)`Prev
    {
      Pointers() && StatesMatch() && QueueMatches()
    }

    /** Init: the bootstrap thread is running, the idle thread exists, nothing is queued. */
    constructor ()
      ensures Valid() && Model == M.AfterInit()
      ensures Current == Bootstrap && Bootstrap.State == Running && Idle.State == Ready && RunQueue.Contents == []
      ensures fresh(RunQueue) && fresh(Repr)
    {
      var b := new Thread(M.BOOTSTRAP);
      b.State := Running;
      var i := CreateKernel(M.IDLE);
      RunQueue := new RunQueue();
      Bootstrap, Idle, Current := b, i, b;
      Threads, Repr := [b, i], {b, i};
      Model := M.AfterInit();
    }

    /** t is the thread with its own creation number. */
    ghost predicate Mine(t: Thread)
      reads this
    {
      t.Id < |Threads| && Threads[t.Id] == t
    }

    lemma QueueOwned()
      requires Pointers() && QueueMatches()
      ensures (set x | x in RunQueue.Contents) <= Repr
    {
      forall x | x in RunQueue.Contents
        ensures x in Repr
      {
        var i :| 0 <= i < |RunQueue.Contents| && RunQueue.Contents[i] == x;
        assert x == Threads[Model.queue[i]];
      }
    }

    lemma Unqueued(t: Thread)
      requires Pointers() && QueueMatches() && Mine(t) && t.Id !in Model.queue
      ensures t !in RunQueue.Contents
    {
      forall i | 0 <= i < |RunQueue.Contents|
        ensures RunQueue.Contents[i] != t
      {
        assert Threads[Model.queue[i]].Id == Model.queue[i] != t.Id;
      }
    }

    /** Writes one thread's State field. */
    method Mark(t: Thread, state: ThreadState)
      requires Valid() && Mine(t)
      modifies this`Model, t`State
      ensures Valid() && Model == old(Model).(states := old(Model).states[t.Id := state])
    {
      ghost var states := Model.states[t.Id := state];
      t.State := state;
      assert RunQueue.Valid();
      assert forall i :: 0 <= i < |Threads| ==> Threads[i].State == states[i];
      Model := Model.(states := states);
    }

    /** Pushes one thread onto the run queue. */
    method Link(t: Thread)
      requires Valid() && Mine(t) && t.Id !in Model.queue
      modifies this`Model, RunQueue, Repr`Next, Repr`Prev
      ensures Valid() && Model == old(Model).(queue := old(Model).queue + [t.Id])
      ensures RunQueue.Contents == old(RunQueue.Contents) + [t]
    {
      Unqueued(t);
      QueueOwned();
      ghost var q, ids := RunQueue.Contents, Model.queue;
      RunQueue.Push(t);
      assert StatesMatch();
      Model := Model.(queue := ids + [t.Id]);
      forall i | 0 <= i < |Model.queue|
        ensures RunQueue.Contents[i] == Threads[Model.queue[i]]
      {
        assert i < |ids| ==> q[i] == Threads[ids[i]];
      }
    }

    method EnqueueReady(t: Thread)
      requires Valid() && Mine(t) && t.Id !in Model.queue
      modifies this`Model, RunQueue, Repr
      ensures Valid() && Model == M.EnqueueReady(old(Model), t.Id)
      ensures t.State == Ready && RunQueue.Contents == old(RunQueue.Contents) + [t]
    {
      Mark(t, Ready);
      Link(t);
    }

    /** Pops one thread off the run queue, if there is one. */
    method Unlink() returns (t: Thread?)
      requires Valid()
      modifies this`Model, RunQueue, Repr`Next, Repr`Prev
      ensures Valid() && (t == null <==> old(Model).queue == [])
      ensures t != null ==> t == Threads[old(Model).queue[0]]
      ensures Model == old(Model).(queue := if old(Model).queue == [] then [] else old(Model).queue[1..])
    {
      QueueOwned();
      ghost var q, ids := RunQueue.Contents, Model.queue;
      t := RunQueue.PopFront();
      assert StatesMatch();
      Model := Model.(queue := if ids == [] then [] else ids[1..]);
      forall i | 0 <= i < |Model.queue|
        ensures RunQueue.Contents[i] == Threads[Model.queue[i]]
      {
        assert q[i + 1] == Threads[ids[i + 1]];
      }
    }

    method DequeueNext() returns (next: Thread)
      requires Valid()
      modifies this`Model, RunQueue, Repr
      ensures Valid() && Mine(next) && next.Id == M.Next(old(Model))
      ensures Model == old(Model).(queue := if old(Model).queue == [] then [] else old(Model).queue[1..])
    {
      var popped := Unlink();
      if popped == null {
        next := Idle;
      } else {
        next := popped;
      }
    }

    method SwitchTo(next: Thread)
      requires Valid() && Mine(next)
      modifies this`Current, this`Model, next`State
      ensures Valid() && Model == M.SwitchTo(old(Model), next.Id)
    {
      if next == Current {
        return;
      }
      Mark(next, Running);
      Current := next;
      Model := Model.(current := next.Id);
    }

    /** The first half of Yield: a running worker goes back to the queue. */
    method Requeue()
      requires Valid() && Model.current !in Model.queue
      modifies this`Model, RunQueue, Repr
      ensures Valid() && Model == M.Requeue(old(Model))
    {
      if Current != Idle && Current != Bootstrap && Current.State == Running {
        EnqueueReady(Current);
      }
    }

    method Yield()
      requires Valid() && M.QueueInv(Model)
      modifies this`Current, this`Model, RunQueue, Repr
      ensures Valid() && Model == M.YieldStep(old(Model))
    {
      M.CurrentNotQueued(Model);
      Requeue();
      var next := DequeueNext();
      SwitchTo(next);
    }

    /** CreateAndEnqueue; `stackOk` tells whether the stack could be allocated. */
    method CreateAndEnqueue(stackOk: bool) returns (t: Thread?)
      requires Valid()
      modifies this`Threads, this`Repr, this`Model, RunQueue, Repr
      ensures Valid() && Model == M.Step(old(Model), M.Create(stackOk))
      ensures (t != null) == stackOk
      ensures t == null ==> RunQueue.Contents == old(RunQueue.Contents)
      ensures t != null ==> fresh(t) && t.State == Ready && RunQueue.Contents == old(RunQueue.Contents) + [t]
      ensures fresh(Repr - old(Repr))
    {
      if !stackOk {
        return null;
      }
      M.CreateIsEnqueue(Model);
      t := Enroll();
    }

    /** A new thread, put into the queue. */
    method Enroll() returns (t: Thread)
      requires Valid()
      modifies this`Threads, this`Repr, this`Model, RunQueue, Repr
      ensures Valid() && fresh(t) && fresh(Repr - old(Repr))
      ensures t.State == Ready && RunQueue.Contents == old(RunQueue.Contents) + [t]
      ensures Model == M.EnqueueReady(old(Model).(states := old(Model).states + [Ready]), |old(Model).states|)
    {
      M.NewNotQueued(Model);
      t := AddThread();
      EnqueueReady(t);
    }

    /** CreateKernel, with the new thread known to the scheduler's account of all threads. */
    method AddThread() returns (t: Thread)
      requires Valid()
      modifies this`Threads, this`Repr, this`Model
      ensures Valid() && Mine(t) && fresh(t) && t.Id == |old(Threads)| && Repr == old(Repr) + {t}
      ensures Model == old(Model).(states := old(Model).states + [Ready])
    {
      t := CreateKernel(|Threads|);
      Adopt(t);
    }

    ghost method Adopt(t: Thread)
      requires Valid() && t.Id == |Threads| && t.State == Ready
      modifies this`Threads, this`Repr, this`Model
      ensures Valid() && Mine(t) && Repr == old(Repr) + {t}
      ensures Model == old(Model).(states := old(Model).states + [Ready])
    {
      Threads, Repr := Threads + [t], Repr + {t};
      Model := Model.(states := Model.states + [Ready]);
      assert StatesMatch();
      assert QueueMatches();
    }

    method ThreadExit()
      requires Valid() && M.Inv(Model) && M.Worker(Model.current)
      modifies this`Current, this`Model, RunQueue, Repr
      ensures Valid() && Model == M.Step(old(Model), M.Exit)
      ensures old(Current).State == Dead && Current != old(Current) && old(Current) !in RunQueue.Contents
    {
      M.ExitLeaves(Model);
      Mark(Current, Dead);
      Yield();
    }
  }

  /** The scheduler objects, driven by any run, end in the machine's state. */
  method Drive(sc: Scheduler, run: seq<M.Event>)
    requires sc.Valid() && M.Inv(sc.Model)
    modifies sc, sc.RunQueue, sc.Repr
    ensures sc.Valid() && sc.Model == M.Run(old(sc.Model), run)
    ensures fresh(sc.Repr - old(sc.Repr))
    decreases |run|
  {
    if run != [] {
      var last := |run| - 1;
      M.InvRun(sc.Model, run[..last]);
      Drive(sc, run[..last]);
      DriveOne(sc, run[last]);
    }
  }

  method DriveOne(sc: Scheduler, e: M.Event)
    requires sc.Valid() && M.Inv(sc.Model)
    modifies sc, sc.RunQueue, sc.Repr
    ensures sc.Valid() && sc.Model == M.Step(old(sc.Model), e)
    ensures fresh(sc.Repr - old(sc.Repr))
  {
    match e
    case Yield => sc.Yield();
    case Create(ok) => var _ := sc.CreateAndEnqueue(ok);
    case Exit =>
      if sc.Current != sc.Idle && sc.Current != sc.Bootstrap {
        sc.ThreadExit();
      }
  }
}
