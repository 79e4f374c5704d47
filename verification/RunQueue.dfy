/**
  The run queue: an intrusive doubly linked list of threads.  The links are rewritten in
  place; the sequence of queued threads is what the list stands for.
 */
module RunQueues {

  datatype ThreadState = Init | Ready | Running | Sleep | Dead

  class Thread {
    ghost const Id: nat      // creation number
    var State: ThreadState
    var Next: Thread?
    var Prev: Thread?

    constructor (ghost id: nat)
      ensures Id == id && State == Init && Next == null && Prev == null
    {
      Id, State, Next, Prev := id, Init, null, null;
    }
  }

  /** The thread at a position of a queue, or null beyond either end. */
  ghost function At(q: seq<Thread>, i: int): Thread? {
    if 0 <= i < |q| then q[i] else null
  }

  class RunQueue {
    var Head: Thread?
    var Tail: Thread?
    ghost var Contents: seq<Thread>

    /** Head, Tail, Next and Prev describe exactly this queue, without repetition. */
    ghost predicate Describes(q: seq<Thread>)
      reads this, (set x | x in q)`Next, (set x | x in q)`Prev
    {
      && Head == At(q, 0) && Tail == At(q, |q| - 1)
      && (forall i :: 0 <= i < |q| ==> q[i].Next == At(q, i + 1))
      && (forall i :: 0 <= i < |q| ==> q[i].Prev == At(q, i - 1))
      && (forall i, j :: 0 <= i < j < |q| ==> q[i] != q[j])
    }

    ghost predicate Valid()
      reads this, (set x | x in Contents)`Next, (set x | x in Contents)`Prev
    {
      Describes(Contents)
    }

    constructor ()
      ensures Valid() && Contents == []
    {
      Head, Tail, Contents := null, null, [];
    }

    method Empty() returns (empty: bool)
      requires Valid()
      ensures empty <==> Contents == []
    {
      return Head == null;
    }

    /** Backwards from Tail, a queue that these links describe repeats the old queue from its end. */
    lemma {:induction false} BackChain(q: seq<Thread>, was: seq<Thread>, i: nat, m: nat)
      requires Describes(q) && i + m < |was| - 1 && Tail == was[i] && was[i].Prev == was[|was| - 1]
      requires forall k :: i < k < |was| ==> was[k].Prev == was[k - 1]
      ensures |q| >= m + 2 && q[|q| - 1] == was[i] && q[|q| - 2 - m] == was[|was| - 1 - m]
    {
      if m > 0 {
        BackChain(q, was, i, m - 1);
        assert q[|q| - 1 - m].Prev == was[|was| - 1 - m];
      }
    }

    /** Links that run back from a queued thread to itself describe no queue. */
    lemma NothingDescribed(was: seq<Thread>, i: nat)
      requires i < |was| && Tail == was[i]
      requires i == |was| - 1 ==> was[i].Next == was[i]
      requires i < |was| - 1 ==> was[i].Prev == was[|was| - 1] && forall k :: i < k < |was| ==> was[k].Prev == was[k - 1]
      ensures forall q: seq<Thread> :: !Describes(q)
    {
      forall q: seq<Thread> | Describes(q)
        ensures false
      {
        assert q[|q| - 1] == was[i];
        if i < |was| - 1 {
          var m := |was| - 2 - i;
          BackChain(q, was, i, m);
        }
      }
    }

    /** The links of a queue q after the writes of Push. */
    ghost predicate Relinked(q: seq<Thread>, t: Thread)
      reads this, t, q
    {
      && (forall i, j :: 0 <= i < j < |q| ==> q[i] != q[j])
      && Head == (if q == [] then t else q[0]) && Tail == t
      && t.Prev == At(q, |q| - 1) && (t != At(q, |q| - 1) ==> t.Next == null)
      && (q != [] ==> q[|q| - 1].Next == t)
      && (forall i :: 0 <= i < |q| && q[i] != t ==> q[i].Prev == At(q, i - 1))
      && (forall i :: 0 <= i < |q| - 1 && q[i] != t ==> q[i].Next == q[i + 1])
    }

    lemma PushDescribes(q: seq<Thread>, t: Thread)
      requires Relinked(q, t) && t !in q
      ensures Describes(q + [t])
    {
      var r := q + [t];
      forall i | 0 <= i < |r|
        ensures r[i].Next == At(r, i + 1) && r[i].Prev == At(r, i - 1)
      {
        assert i < |q| ==> r[i] == q[i] != t;
      }
    }

    lemma PushRuins(q: seq<Thread>, t: Thread)
      requires Relinked(q, t) && t in q
      ensures forall r: seq<Thread> :: !Describes(r)
    {
      var i :| 0 <= i < |q| && q[i] == t;
      NothingDescribed(q, i);
    }

    method Relink(t: Thread, ghost q: seq<Thread>)
      requires Describes(q)
      modifies this`Head, this`Tail, t`Next, t`Prev, (set x | x in q)`Next
      ensures Relinked(q, t)
    {
      t.Next := null;
      t.Prev := Tail;
      if Tail != null {
        Tail.Next := t;
      } else {
        Head := t;
      }
      Tail := t;
    }

    /** A thread that is not queued goes to the end; one that is queued already ruins the links. */
    method Push(t: Thread)
      requires Valid()
      modifies this, t`Next, t`Prev, (set x | x in Contents)`Next
      ensures t !in old(Contents) ==> Valid() && Contents == old(Contents) + [t]
      ensures t in old(Contents) ==> forall q: seq<Thread> :: !Describes(q)
    {
      ghost var q := Contents;
      Relink(t, q);
      if t in q {
        PushRuins(q, t);
      } else {
        PushDescribes(q, t);
        Contents := q + [t];
      }
    }

    method PopFront() returns (t: Thread?)
      requires Valid()
      modifies this, (set x | x in Contents)`Next, (set x | x in Contents)`Prev
      ensures Valid()
      ensures old(Contents) == [] ==> t == null && Contents == []
      ensures old(Contents) != [] ==> t == old(Contents)[0] && Contents == old(Contents)[1..]
      ensures t != null ==> t.Next == null && t.Prev == null && t !in Contents
    {
      t := Head;
      if t == null {
        return;
      }
      assert t == Contents[0] && t.Next == At(Contents, 1);
      Head := t.Next;
      if Head != null {
        Head.Prev := null;
      } else {
        Tail := null;
      }
      t.Next, t.Prev := null, null;
      Contents := Contents[1..];
    }
  }

  // ------------------------------------------------------- operation histories

  /** A caller pushes a thread or pops one. */
  datatype Op<T> = Push(thread: T) | Pop

  /** All threads pushed, in order. */
  function Pushed<T>(history: seq<Op<T>>): seq<T> {
    if history == [] then []
    else
      var before, last := Pushed(history[..|history| - 1]), history[|history| - 1];
      if last.Push? then before + [last.thread] else before
  }

  /** Number of pops that found a thread. */
  function Popped<T>(history: seq<Op<T>>): (n: nat)
    ensures n <= |Pushed(history)|
  {
    if history == [] then 0
    else
      var before, last := history[..|history| - 1], history[|history| - 1];
      if last.Pop? && Popped(before) < |Pushed(before)| then Popped(before) + 1 else Popped(before)
  }

  /** Pushed and not yet popped, oldest first. */
  function Waiting<T>(history: seq<Op<T>>): seq<T> {
    Pushed(history)[Popped(history)..]
  }

  /** No thread is pushed while it is still waiting. */
  ghost predicate NoDoublePush<T>(history: seq<Op<T>>) {
    history != [] ==>
      var before, last := history[..|history| - 1], history[|history| - 1];
      NoDoublePush(before) && (last.Push? ==> last.thread !in Waiting(before))
  }

  lemma {:induction false} NoDoublePushPrefix<T>(history: seq<Op<T>>, k: nat)
    requires NoDoublePush(history) && k <= |history|
    ensures NoDoublePush(history[..k])
    decreases |history|
  {
    if k < |history| {
      NoDoublePushPrefix(history[..|history| - 1], k);
      assert history[..|history| - 1][..k] == history[..k];
    } else {
      assert history[..k] == history;
    }
  }

  lemma PushAllowed<T>(history: seq<Op<T>>, k: nat)
    requires NoDoublePush(history) && k < |history| && history[k].Push?
    ensures history[k].thread !in Waiting(history[..k])
  {
    NoDoublePushPrefix(history, k + 1);
    assert history[..k + 1][..k] == history[..k];
  }

  /** Pops that found a thread, in order. */
  function Delivered<T>(history: seq<Op<T>>): seq<T> {
    Pushed(history)[..Popped(history)]
  }

  lemma {:induction false} AfterPush<T>(before: seq<Op<T>>, t: T)
    ensures Waiting(before + [Push(t)]) == Waiting(before) + [t]
    ensures Delivered(before + [Push(t)]) == Delivered(before)
  {
    var history := before + [Push(t)];
    assert history[..|history| - 1] == before;
  }

  lemma {:induction false} AfterPop<T>(before: seq<Op<T>>)
    ensures Waiting(before) == [] ==> Waiting(before + [Pop]) == [] && Delivered(before + [Pop]) == Delivered(before)
    ensures Waiting(before) != [] ==>
              && Waiting(before + [Pop]) == Waiting(before)[1..]
              && Delivered(before + [Pop]) == Delivered(before) + [Waiting(before)[0]]
  {
    var history := before + [Pop];
    assert history[..|history| - 1] == before;
  }

  /** One operation, applied to the list that stands for a history so far. */
  method Apply(q: RunQueue, op: Op<Thread>, ghost before: seq<Op<Thread>>, delivered: seq<Thread>, ghost threads: set<Thread>)
    returns (delivered': seq<Thread>)
    requires q.Valid() && q.Contents == Waiting(before) && delivered == Delivered(before)
    requires (forall t :: t in q.Contents ==> t in threads) && (op.Push? ==> op.thread in threads)
    requires op.Push? ==> op.thread !in q.Contents
    modifies q, threads
    ensures q.Valid() && q.Contents == Waiting(before + [op]) && delivered' == Delivered(before + [op])
    ensures forall t :: t in q.Contents ==> t in threads
  {
    match op
    case Push(x) =>
      AfterPush(before, x);
      q.Push(x);
      delivered' := delivered;
    case Pop =>
      AfterPop(before);
      var t := q.PopFront();
      delivered' := if t != null then delivered + [t] else delivered;
  }

  /**
    Any history, replayed on the linked list: the list holds exactly the pushed and not yet
    popped threads in order, and the pops delivered all earlier ones, in order.
   */
  method Replay(history: seq<Op<Thread>>, ghost threads: set<Thread>) returns (q: RunQueue, delivered: seq<Thread>)
    requires NoDoublePush(history)
    requires forall i :: 0 <= i < |history| && history[i].Push? ==> history[i].thread in threads
    modifies threads
    ensures fresh(q) && q.Valid() && q.Contents == Waiting(history) && delivered == Delivered(history)
  {
    q := new RunQueue();
    delivered := [];
    for k := 0 to |history|
      invariant fresh(q) && q.Valid() && q.Contents == Waiting(history[..k]) && delivered == Delivered(history[..k])
      invariant forall t :: t in q.Contents ==> t in threads
    {
      if history[k].Push? {
        PushAllowed(history, k);
      }
      assert history[..k] + [history[k]] == history[..k + 1];
      delivered := Apply(q, history[k], history[..k], delivered, threads);
    }
    assert history[..|history|] == history;
  }
}
