/**
  What TryLock answers.  A call lasts at most three instructions of its own thread, however
  the other threads are scheduled; it succeeds exactly when nobody had a ticket when it began
  and nobody took one before its last instruction; and a call that fails leaves no trace.
 */
module TicketLockTry {
  import opened TicketLock
  import opened TicketLockProofs

  // ------------------------------------------------------------- how long it lasts

  /** Instructions that thread i has executed from the start of its latest Lock, TryLock or Unlock on. */
  function CallLength(threads: nat, run: seq<Event>, i: nat): nat
    decreases |run|
  {
    if run == [] then 0
    else
      var before, e := run[..|run| - 1], run[|run| - 1];
      if e.thread != i || !Enabled(Exec(threads, before).s, e) then CallLength(threads, before, i)
      else if e.TakeTicket? || e.TryLoadOwner? || e.Release? then 1
      else CallLength(threads, before, i) + 1
  }

  /** Instructions a thread has behind it when it is inside TryLock. */
  function Depth(pc: Pc): nat {
    if pc.TryLoaded? then 1 else if pc.TryMatched? then 2 else 0
  }

  lemma {:induction false} DepthIsLength(threads: nat, run: seq<Event>, i: nat)
    requires i < threads
    ensures var pc := Exec(threads, run).s.pcs[i]; InTry(pc) ==> CallLength(threads, run, i) == Depth(pc)
    decreases |run|
  {
    if run != [] {
      DepthIsLength(threads, run[..|run| - 1], i);
    }
  }

  /**
    In every interleaving a thread inside TryLock has executed one or two instructions of the
    call and can execute the next one, whatever other threads do; that one is the call's
    second or its third and last.
   */
  lemma {:induction false} TryEnds(threads: nat, run: seq<Event>, i: nat)
    requires i < threads && InTry(Exec(threads, run).s.pcs[i])
    ensures 1 <= CallLength(threads, run, i) <= 2
    ensures
      var s := Exec(threads, run).s;
      var e := if s.pcs[i].TryLoaded? then TryLoadNext(i) else TrySwap(i);
      && Enabled(s, e)
      && (CallLength(threads, run, i) == 2 ==> Step(s, e).pcs[i].Idle? || Step(s, e).pcs[i].Holding?)
      && (CallLength(threads, run, i) == 1 ==> Step(s, e).pcs[i].Idle? || Step(s, e).pcs[i].TryMatched?)
  {
    DepthIsLength(threads, run, i);
  }

  // ------------------------------------------------------------- runs of the others

  predicate ByOthers(run: seq<Event>, i: nat) {
    forall k :: 0 <= k < |run| ==> run[k].thread != i
  }

  lemma {:induction false} ExecAppend(threads: nat, run: seq<Event>, e: Event)
    ensures
      var c := Exec(threads, run);
      Exec(threads, run + [e]) == Config(Step(c.s, e), Record(c.s, c.h, e))
  {
    assert (run + [e])[..|run + [e]| - 1] == run;
  }

  lemma {:induction false} BoundedPrefix(threads: nat, a: seq<Event>, b: seq<Event>, bound: nat)
    requires Bounded(threads, a + b, bound)
    ensures Bounded(threads, a, bound)
    decreases |b|
  {
    if b == [] {
      assert a + b == a;
    } else {
      assert (a + b)[..|a + b| - 1] == a + b[..|b| - 1];
      BoundedPrefix(threads, a, b[..|b| - 1], bound);
    }
  }

  /** Tickets and releases are never taken back, and a thread's own record only changes by its own steps. */
  lemma {:induction false} OthersKeep(threads: nat, a: seq<Event>, b: seq<Event>, i: nat)
    requires i < threads && ByOthers(b, i)
    ensures
      var c, d := Exec(threads, a), Exec(threads, a + b);
      && d.s.pcs[i] == c.s.pcs[i] && d.h.ownerSeen[i] == c.h.ownerSeen[i]
      && |c.h.log| <= |d.h.log| && c.h.released <= d.h.released
    decreases |b|
  {
    if b == [] {
      assert a + b == a;
    } else {
      var b', e := b[..|b| - 1], b[|b| - 1];
      OthersKeep(threads, a, b', i);
      assert a + b == (a + b') + [e];
      ExecAppend(threads, a + b', e);
    }
  }

  // ----------------------------------------------------------------- what it answers

  /** A whole call of thread i among instructions of others.  If the comparison fails the swap is not executed. */
  function Call(first: seq<Event>, second: seq<Event>, i: nat): seq<Event> {
    [TryLoadOwner(i)] + first + [TryLoadNext(i)] + second + [TrySwap(i)]
  }

  /** The run up to the swap, cut at the instructions of the call. */
  lemma {:induction false} Split(before: seq<Event>, first: seq<Event>, second: seq<Event>, i: nat)
    ensures before + Call(first, second, i) ==
            ((((before + [TryLoadOwner(i)]) + first) + [TryLoadNext(i)]) + second) + [TrySwap(i)]
  {
  }

  /** Where thread i stands after the comparison, and what it remembers. */
  lemma {:induction false} AfterComparison(threads: nat, before: seq<Event>, first: seq<Event>, i: nat)
    requires i < threads && Exec(threads, before).s.pcs[i].Idle? && ByOthers(first, i)
    ensures
      var c := Exec(threads, before);
      var m := Exec(threads, (before + [TryLoadOwner(i)]) + first);
      var d := Exec(threads, ((before + [TryLoadOwner(i)]) + first) + [TryLoadNext(i)]);
      && |c.h.log| <= |m.h.log| == |d.h.log| && c.h.released <= m.h.released == d.h.released
      && d.h.ownerSeen[i] == c.h.released
      && d.s.next == m.s.next
      && d.s.pcs[i] == if m.s.next == c.s.owner then TryMatched(c.s.owner) else Idle
  {
    var started := before + [TryLoadOwner(i)];
    ExecAppend(threads, before, TryLoadOwner(i));
    OthersKeep(threads, started, first, i);
    ExecAppend(threads, started + first, TryLoadNext(i));
  }

  /** The configuration just before the swap. */
  function BeforeSwap(before: seq<Event>, first: seq<Event>, second: seq<Event>, i: nat): seq<Event> {
    (((before + [TryLoadOwner(i)]) + first) + [TryLoadNext(i)]) + second
  }

  lemma {:induction false} AtSwap(threads: nat, before: seq<Event>, first: seq<Event>, second: seq<Event>, i: nat)
    requires i < threads && Exec(threads, before).s.pcs[i].Idle? && ByOthers(first, i) && ByOthers(second, i)
    ensures
      var c := Exec(threads, before);
      var m := Exec(threads, (before + [TryLoadOwner(i)]) + first);
      var d := Exec(threads, BeforeSwap(before, first, second, i));
      && |c.h.log| <= |m.h.log| <= |d.h.log| && c.h.released <= m.h.released <= d.h.released
      && d.h.ownerSeen[i] == c.h.released
      && d.s.pcs[i] == (if m.s.next == c.s.owner then TryMatched(c.s.owner) else Idle)
  {
    AfterComparison(threads, before, first, i);
    OthersKeep(threads, ((before + [TryLoadOwner(i)]) + first) + [TryLoadNext(i)], second, i);
  }

  lemma {:induction false} NobodyOutstanding(s: State, h: History)
    requires Inv(s, h)
    ensures Waiters(s) == {} <==> h.released == |h.log|
  {
    WaitersCount(s, h);
  }

  lemma {:induction false} InvAt(threads: nat, run: seq<Event>, rest: seq<Event>, bound: nat)
    requires threads + bound <= MODULUS && Bounded(threads, run + rest, bound)
    ensures Inv(Exec(threads, run).s, Exec(threads, run).h) && StallsWithin(Exec(threads, run), bound)
  {
    BoundedPrefix(threads, run, rest, bound);
    InvRun(threads, run, bound);
  }

  lemma {:induction false} Succeeds(c: Config, m: Config, d: Config, i: nat)
    requires Inv(c.s, c.h) && Inv(m.s, m.h) && Inv(d.s, d.h) && i < |d.s.pcs|
    requires |c.h.log| <= |m.h.log| <= |d.h.log| && c.h.released <= m.h.released <= d.h.released
    requires d.s.pcs[i] == if m.s.next == c.s.owner then TryMatched(c.s.owner) else Idle
    requires c.h.released == |c.h.log| == |d.h.log|
    ensures Step(d.s, TrySwap(i)).pcs[i].Holding?
  {
  }

  lemma {:induction false} SucceedsOnly(c: Config, d: Config, bound: nat, i: nat)
    requires Inv(c.s, c.h) && Inv(d.s, d.h) && StallsWithin(d, bound) && |d.s.pcs| + bound <= MODULUS && i < |d.s.pcs|
    requires |c.h.log| <= |d.h.log| && d.h.ownerSeen[i] == c.h.released
    requires Step(d.s, TrySwap(i)).pcs[i].Holding? && (d.s.pcs[i].TryMatched? || d.s.pcs[i].Idle?)
    ensures c.h.released == |c.h.log| == |d.h.log|
  {
    MatchMeansFree(d, i, bound);
  }

  /** The invariant at the first, second and last instruction of a call. */
  lemma {:induction false} InvDuringCall(threads: nat, before: seq<Event>, first: seq<Event>, second: seq<Event>, i: nat, bound: nat)
    requires threads + bound <= MODULUS && Bounded(threads, before + Call(first, second, i), bound)
    ensures Inv(Exec(threads, before).s, Exec(threads, before).h)
    ensures var m := Exec(threads, (before + [TryLoadOwner(i)]) + first); Inv(m.s, m.h)
    ensures var d := Exec(threads, BeforeSwap(before, first, second, i)); Inv(d.s, d.h) && StallsWithin(d, bound)
  {
    var started := (before + [TryLoadOwner(i)]) + first;
    Split(before, first, second, i);
    assert before + Call(first, second, i) == started + ([TryLoadNext(i)] + second + [TrySwap(i)]);
    InvAt(threads, before, Call(first, second, i), bound);
    InvAt(threads, started, [TryLoadNext(i)] + second + [TrySwap(i)], bound);
    InvAt(threads, BeforeSwap(before, first, second, i), [TrySwap(i)], bound);
  }

  lemma {:induction false} SwapAnswers(c: Config, m: Config, d: Config, bound: nat, i: nat)
    requires Inv(c.s, c.h) && Inv(m.s, m.h) && Inv(d.s, d.h) && StallsWithin(d, bound)
    requires |d.s.pcs| + bound <= MODULUS && i < |d.s.pcs|
    requires |c.h.log| <= |m.h.log| <= |d.h.log| && c.h.released <= m.h.released <= d.h.released
    requires d.h.ownerSeen[i] == c.h.released
    requires d.s.pcs[i] == if m.s.next == c.s.owner then TryMatched(c.s.owner) else Idle
    ensures
      var end := Step(d.s, TrySwap(i)).pcs[i];
      && (end.Holding? || end.Idle?)
      && (end.Holding? <==> Waiters(c.s) == {} && |d.h.log| == |c.h.log|)
  {
    NobodyOutstanding(c.s, c.h);
    if c.h.released == |c.h.log| == |d.h.log| {
      Succeeds(c, m, d, i);
    }
    if Step(d.s, TrySwap(i)).pcs[i].Holding? {
      SucceedsOnly(c, d, bound, i);
    }
  }

  /**
    Within the bound a call ends Holding exactly when no ticket was outstanding at its first
    instruction and none was issued before its last; otherwise it ends Idle.
   */
  lemma {:induction false} TryAnswers(threads: nat, before: seq<Event>, first: seq<Event>, second: seq<Event>, i: nat, bound: nat)
    requires threads + bound <= MODULUS && i < threads && ByOthers(first, i) && ByOthers(second, i)
    requires Exec(threads, before).s.pcs[i].Idle?
    requires Bounded(threads, before + Call(first, second, i), bound)
    ensures
      var c := Exec(threads, before);
      var d := Exec(threads, BeforeSwap(before, first, second, i));
      var end := Exec(threads, before + Call(first, second, i)).s.pcs[i];
      && (end.Holding? || end.Idle?)
      && (end.Holding? <==> Waiters(c.s) == {} && |d.h.log| == |c.h.log|)
  {
    var started, run := (before + [TryLoadOwner(i)]) + first, BeforeSwap(before, first, second, i);
    Split(before, first, second, i);
    InvDuringCall(threads, before, first, second, i, bound);
    AtSwap(threads, before, first, second, i);
    ExecAppend(threads, run, TrySwap(i));
    SwapAnswers(Exec(threads, before), Exec(threads, started), Exec(threads, run), bound, i);
  }

  // ------------------------------------------------------------ a failed call

  /** The same lock and the same other threads. */
  ghost predicate SameBut(s: State, s': State, i: nat) {
    && s'.next == s.next && s'.owner == s.owner && |s'.pcs| == |s.pcs|
    && forall j :: 0 <= j < |s.pcs| && j != i ==> s'.pcs[j] == s.pcs[j]
  }

  lemma {:induction false} OtherStep(s: State, s': State, i: nat, e: Event)
    requires SameBut(s, s', i) && e.thread != i
    ensures SameBut(Step(s, e), Step(s', e), i)
  {
  }

  lemma {:induction false} OthersSame(threads: nat, a: seq<Event>, a': seq<Event>, b: seq<Event>, i: nat)
    requires SameBut(Exec(threads, a).s, Exec(threads, a').s, i) && ByOthers(b, i)
    ensures SameBut(Exec(threads, a + b).s, Exec(threads, a' + b).s, i)
    decreases |b|
  {
    if b == [] {
      assert a + b == a && a' + b == a';
    } else {
      var b', e := b[..|b| - 1], b[|b| - 1];
      OthersSame(threads, a, a', b', i);
      assert a + b == (a + b') + [e] && a' + b == (a' + b') + [e];
      ExecAppend(threads, a + b', e);
      ExecAppend(threads, a' + b', e);
      OtherStep(Exec(threads, a + b').s, Exec(threads, a' + b').s, i, e);
    }
  }

  /** The first two instructions of a call, and a swap that fails, change nothing but the thread itself. */
  lemma {:induction false} TryStep(s: State, i: nat, e: Event)
    requires i < |s.pcs|
    requires e == TryLoadOwner(i) || e == TryLoadNext(i) || (e == TrySwap(i) && !Step(s, e).pcs[i].Holding?)
    ensures SameBut(s, Step(s, e), i)
  {
  }

  /**
    For every interleaving, within the bound or not: a call that does not end Holding might
    as well not have been made.  The lock and all other threads end as if only the others'
    instructions had been executed.
   */
  lemma {:induction false} FailedTryLeavesNoTrace(threads: nat, before: seq<Event>, first: seq<Event>, second: seq<Event>, i: nat)
    requires i < threads && ByOthers(first, i) && ByOthers(second, i) && Exec(threads, before).s.pcs[i].Idle?
    requires !Exec(threads, before + Call(first, second, i)).s.pcs[i].Holding?
    ensures Exec(threads, before + Call(first, second, i)).s == Exec(threads, (before + first) + second).s
  {
    var a1 := before + [TryLoadOwner(i)];
    var a2 := a1 + first;
    var a3 := a2 + [TryLoadNext(i)];
    var a4 := a3 + second;
    Split(before, first, second, i);
    ExecAppend(threads, before, TryLoadOwner(i));
    TryStep(Exec(threads, before).s, i, TryLoadOwner(i));
    OthersSame(threads, before, a1, first, i);
    ExecAppend(threads, a2, TryLoadNext(i));
    TryStep(Exec(threads, a2).s, i, TryLoadNext(i));
    OthersSame(threads, before + first, a3, second, i);
    ExecAppend(threads, a4, TrySwap(i));
    TryStep(Exec(threads, a4).s, i, TrySwap(i));
    AtSwap(threads, before, first, second, i);
    OthersKeep(threads, before, first, i);
    OthersKeep(threads, before + first, second, i);
    SameStates(Exec(threads, (before + first) + second).s, Exec(threads, a4 + [TrySwap(i)]).s, i);
  }

  lemma {:induction false} SameStates(s: State, s': State, i: nat)
    requires SameBut(s, s', i) && i < |s.pcs| && s.pcs[i] == s'.pcs[i]
    ensures s' == s
  {
    assert s'.pcs == s.pcs;
  }
}
