/**
  Reference counts shared between threads.  Every atomic instruction on a count and every
  store to a pointer inside a handle is one step, so that the handle operations of different
  threads interleave freely, over sequentially consistent memory.  A handle belongs to one
  thread at a time and may be handed over between operations.
 */
module SharedCounts {
  import opened RefCounts

  /** Who may release the creator's reference: one thread, or nobody ever. */
  datatype Token = Held(thread: nat) | Forever

  /** What a thread still has to do once a Release is over. */
  datatype Goal =
    | Nothing                     // the creator's own Release
    | Vanish(h: nat)              // the destructor ends
    | Assign(h: nat, v: nat, move: bool)

  /** What keeps an object alive while a reference to it is being added. */
  datatype Source = FromToken | FromHandle(v: nat)

  datatype Pc =
    | Idle
    | Adding(h: nat, o: nat, source: Source)    // pointer stored, AddRef to come
    | Releasing(o: nat, goal: Goal)             // Release to come
    | Deleting(o: nat, goal: Goal)              // fetch_sub returned 1, delete to come
    | Storing(h: nat, v: nat, move: bool)       // assignment: store of the pointer to come
    | Clearing(h: nat, v: nat)                  // move: the source is still to be cleared
    | Leaving(h: nat)                           // the destructor is about to end

  /**
    count: objects that exist, with their m_RefCount.  target and owner: handles with their
    m_Ptr and their thread.  tokens: objects whose creator's reference is not released.
    counted: an account, never read by the code, of the pointer for which each handle has
    been counted.  born and deleted: objects ever created and deleted.
   */
  datatype State = State(
    count: map<nat, nat>, target: map<nat, Ptr>, owner: map<nat, nat>, tokens: map<nat, Token>, pcs: seq<Pc>,
    counted: map<nat, Ptr>, born: set<nat>, deleted: seq<nat>)

  datatype Event =
    | Create(t: nat, o: nat)                // new: count 1, the creator's reference
    | Keep(t: nat, o: nat)                  // the creator's reference will never be released
    | DropToken(t: nat, o: nat)             // direct Release of the creator's reference
    | MakeNull(t: nat, h: nat)
    | MakeRaw(t: nat, h: nat, o: nat)       // RefPtr(T*), of an object whose creator's reference is safe
    | MakeCopy(t: nat, h: nat, v: nat)
    | MakeMove(t: nat, h: nat, v: nat)
    | Kill(t: nat, h: nat)                  // destructor
    | AssignTo(t: nat, h: nat, v: nat, move: bool)
    | Give(t: nat, h: nat, u: nat)          // the handle goes over to another thread
    | Continue(t: nat)                      // the next instruction of an unfinished operation

  predicate Mine(s: State, t: nat, h: nat) {
    h in s.target && h in s.owner && s.owner[h] == t
  }

  predicate IsIdle(s: State, t: nat) {
    t < |s.pcs| && s.pcs[t].Idle?
  }

  predicate Safe(s: State, t: nat, o: nat) {
    o in s.tokens && (s.tokens[o] == Held(t) || s.tokens[o] == Forever)
  }

  predicate CanBegin(s: State, e: Event) {
    && IsIdle(s, e.t)
    && match e
       case Create(_, o) => o !in s.born
       case Keep(t, o) => o in s.tokens && s.tokens[o] == Held(t)
       case DropToken(t, o) => o in s.tokens && s.tokens[o] == Held(t)
       case MakeNull(_, h) => h !in s.target
       case MakeRaw(t, h, o) => h !in s.target && Safe(s, t, o)
       case MakeCopy(t, h, v) => h !in s.target && Mine(s, t, v)
       case MakeMove(t, h, v) => h !in s.target && Mine(s, t, v)
       case Kill(t, h) => Mine(s, t, h)
       case AssignTo(t, h, v, _) => Mine(s, t, h) && Mine(s, t, v)
       case Give(t, h, u) => Mine(s, t, h) && u < |s.pcs|
       case Continue(_) => false
  }

  function Goto(s: State, t: nat, pc: Pc): State
    requires t < |s.pcs|
  {
    s.(pcs := s.pcs[t := pc])
  }

  /** A new handle of thread t, which goes on at pc. */
  function WithHandle(s: State, t: nat, h: nat, p: Ptr, pc: Pc): State
    requires t < |s.pcs|
  {
    s.(target := s.target[h := p], owner := s.owner[h := t], pcs := s.pcs[t := pc])
  }

  /** After a pointer copied from v has been stored in h: AddRef is next, unless the pointer is null. */
  function AfterCopy(h: nat, p: Ptr, v: nat): Pc {
    if p.To? then Adding(h, p.obj, FromHandle(v)) else Idle
  }

  /** After a Release: what the destructor or assignment does next. */
  function AfterRelease(goal: Goal): Pc {
    match goal
    case Nothing => Idle
    case Vanish(h) => Leaving(h)
    case Assign(h, v, move) => Storing(h, v, move)
  }

  /** The test at the start of the destructor and of both assignments. */
  function ReleaseFirst(p: Ptr, goal: Goal): Pc {
    if p.To? then Releasing(p.obj, goal) else AfterRelease(goal)
  }

  /** Up to and including the first instruction of an operation. */
  function Begin(s: State, e: Event): State
    requires CanBegin(s, e)
  {
    match e
    case Create(t, o) => s.(count := s.count[o := 1], tokens := s.tokens[o := Held(t)], born := s.born + {o})
    case Keep(_, o) => s.(tokens := s.tokens[o := Forever])
    case DropToken(t, o) => Goto(s, t, Releasing(o, Nothing))
    case MakeNull(t, h) => WithHandle(s, t, h, Null, Idle)
    case MakeRaw(t, h, o) => WithHandle(s, t, h, To(o), Adding(h, o, FromToken))
    case MakeCopy(t, h, v) => WithHandle(s, t, h, s.target[v], AfterCopy(h, s.target[v], v))
    case MakeMove(t, h, v) => WithHandle(s, t, h, s.target[v], Clearing(h, v))
    case Kill(t, h) => Goto(s, t, ReleaseFirst(s.target[h], Vanish(h)))
    case AssignTo(t, h, v, move) => if h == v then s else Goto(s, t, ReleaseFirst(s.target[h], Assign(h, v, move)))
    case Give(_, h, u) => s.(owner := s.owner[h := u])
  }

  /** The object that the next instruction of a thread touches. */
  function Touched(pc: Pc): set<nat> {
    if pc.Adding? || pc.Releasing? || pc.Deleting? then {pc.o} else {}
  }

  /** The thread has an unfinished operation whose next instruction finds its object and handles. */
  predicate CanContinue(s: State, t: nat) {
    && t < |s.pcs| && !s.pcs[t].Idle?
    && (forall o :: o in Touched(s.pcs[t]) ==> o in s.count)
    && (s.pcs[t].Releasing? ==> s.count[s.pcs[t].o] >= 1)
    && (s.pcs[t].Storing? || s.pcs[t].Clearing? ==> s.pcs[t].h in s.target && s.pcs[t].v in s.target)
  }

  function Resume(s: State, t: nat): State
    requires CanContinue(s, t)
  {
    match s.pcs[t]
    case Adding(h, o, _) =>
      s.(count := s.count[o := s.count[o] + 1], counted := s.counted[h := To(o)], pcs := s.pcs[t := Idle])
    case Releasing(o, goal) =>
      var pc := if s.count[o] == 1 then Deleting(o, goal) else AfterRelease(goal);
      var count := s.count[o := s.count[o] - 1];
      if goal.Nothing? then s.(count := count, tokens := s.tokens - {o}, pcs := s.pcs[t := pc])
      else s.(count := count, counted := s.counted[goal.h := Null], pcs := s.pcs[t := pc])
    case Deleting(o, goal) =>
      s.(count := s.count - {o}, deleted := s.deleted + [o], pcs := s.pcs[t := AfterRelease(goal)])
    case Storing(h, v, move) =>
      var pc := if move then Clearing(h, v) else AfterCopy(h, s.target[v], v);
      s.(target := s.target[h := s.target[v]], pcs := s.pcs[t := pc])
    case Clearing(h, v) =>
      s.(target := s.target[v := Null], counted := s.counted[h := s.target[h]][v := Null], pcs := s.pcs[t := Idle])
    case Leaving(h) =>
      s.(target := s.target - {h}, owner := s.owner - {h}, counted := s.counted - {h}, pcs := s.pcs[t := Idle])
  }

  /** The machine.  A step that would touch a missing object is not taken; that none occurs is proved below. */
  function Next(s: State, e: Event): State {
    if e.Continue? then (if CanContinue(s, e.t) then Resume(s, e.t) else s)
    else if CanBegin(s, e) then Begin(s, e)
    else s
  }

  function Initial(threads: nat): State {
    State(map[], map[], map[], map[], seq(threads, _ => Idle), map[], {}, [])
  }

  function Run(threads: nat, run: seq<Event>): State
    decreases |run|
  {
    if run == [] then Initial(threads) else Next(Run(threads, run[..|run| - 1]), run[|run| - 1])
  }

  // -------------------------------------------------------------- invariant

  /** The references that the counts account for. */
  function Own(s: State): Owners {
    Owners(s.tokens.Keys, s.counted)
  }

  function CountedAs(s: State, h: nat): Ptr {
    TargetOf(Own(s), h)
  }

  /** Whatever is referenced exists, and whatever exists counts its references. */
  ghost predicate Agrees(count: map<nat, nat>, own: Owners) {
    forall o: nat :: (References(own, o) > 0 ==> o in count) && (o in count ==> count[o] == References(own, o))
  }

  /** The handle whose pointer a thread has stored or is about to replace without its being counted. */
  function Special(pc: Pc): set<nat> {
    match pc
    case Adding(h, _, _) => {h}
    case Deleting(_, goal) => if goal.Nothing? then {} else {goal.h}
    case Storing(h, _, _) => {h}
    case Clearing(h, _) => {h}
    case Leaving(h) => {h}
    case _ => {}
  }

  predicate GoalFits(s: State, t: nat, goal: Goal) {
    match goal
    case Nothing => true
    case Vanish(h) => Mine(s, t, h)
    case Assign(h, v, _) => h != v && Mine(s, t, h) && Mine(s, t, v)
  }

  /** What holds of a thread in the middle of an operation. */
  predicate Local(s: State, t: nat)
    requires t < |s.pcs|
  {
    match s.pcs[t]
    case Idle => true
    case Adding(h, o, source) =>
      && Mine(s, t, h) && s.target[h] == To(o)
      && (match source
          case FromToken => Safe(s, t, o)
          case FromHandle(v) => v != h && Mine(s, t, v) && s.target[v] == To(o))
    case Releasing(o, goal) =>
      && GoalFits(s, t, goal)
      && (if goal.Nothing? then o in s.tokens && s.tokens[o] == Held(t) else s.target[goal.h] == To(o))
    case Deleting(o, goal) => GoalFits(s, t, goal) && o in s.count && s.count[o] == 0
    case Storing(h, v, _) => h != v && Mine(s, t, h) && Mine(s, t, v)
    case Clearing(h, v) => h != v && Mine(s, t, h) && Mine(s, t, v) && s.target[h] == s.target[v]
    case Leaving(h) => Mine(s, t, h)
  }

  /** A handle is counted for the pointer it holds, except for the special handle of its thread. */
  predicate HandleFits(s: State, h: nat)
    requires h in s.target
  {
    && h in s.owner && s.owner[h] < |s.pcs|
    && CountedAs(s, h) == if h in Special(s.pcs[s.owner[h]]) then Null else s.target[h]
  }

  ghost predicate Handled(s: State) {
    && s.owner.Keys == s.target.Keys && s.counted.Keys <= s.target.Keys
    && forall h :: h in s.target ==> HandleFits(s, h)
  }

  ghost predicate Locals(s: State) {
    forall t :: 0 <= t < |s.pcs| ==> Local(s, t)
  }

  predicate Deletes(s: State, t: nat, o: nat) {
    t < |s.pcs| && s.pcs[t].Deleting? && s.pcs[t].o == o
  }

  /** An object with count 0 is about to be deleted, by exactly one thread. */
  ghost predicate Dying(s: State) {
    && (forall o :: o in s.count && s.count[o] == 0 ==> exists t :: Deletes(s, t, o))
    && (forall t, u, o :: Deletes(s, t, o) && Deletes(s, u, o) ==> t == u)
  }

  /** Every object ever created exists or was deleted, not both, and not deleted twice. */
  ghost predicate Lives(s: State) {
    && (forall o :: o in s.born <==> o in s.count || o in s.deleted)
    && (forall o :: o in s.count ==> o !in s.deleted)
    && (forall i, j :: 0 <= i < j < |s.deleted| ==> s.deleted[i] != s.deleted[j])
  }

  ghost predicate Inv(s: State) {
    Shape(s) && Agrees(s.count, Own(s)) && Dying(s) && Lives(s)
  }

  // ---------------------------------------------------------- counts and references

  lemma AgreesAdd(count: map<nat, nat>, own: Owners, h: nat, x: nat)
    requires Agrees(count, own) && TargetOf(own, h) == Null && x in count
    ensures Agrees(count[x := count[x] + 1], Retarget(own, h, To(x)))
  {
    forall o: nat
      ensures References(Retarget(own, h, To(x)), o) == References(own, o) + One(o == x)
    {
      RetargetCounts(own, h, To(x), o);
    }
  }

  lemma AgreesSub(count: map<nat, nat>, own: Owners, h: nat, x: nat)
    requires Agrees(count, own) && TargetOf(own, h) == To(x)
    ensures x in count && count[x] >= 1
    ensures Agrees(count[x := count[x] - 1], Retarget(own, h, Null))
  {
    assert h in Handles(own, x);
    forall o: nat
      ensures References(Retarget(own, h, Null), o) + One(o == x) == References(own, o)
    {
      RetargetCounts(own, h, Null, o);
    }
  }

  lemma AgreesSubToken(count: map<nat, nat>, own: Owners, x: nat)
    requires Agrees(count, own) && x in own.creators
    ensures x in count && count[x] >= 1
    ensures Agrees(count[x := count[x] - 1], own.(creators := own.creators - {x}))
  {
    var own' := own.(creators := own.creators - {x});
    assert References(own, x) >= 1;
    forall o: nat
      ensures References(own', o) + One(o == x) == References(own, o)
    {
      assert Handles(own', o) == Handles(own, o);
    }
  }

  lemma AgreesNew(count: map<nat, nat>, own: Owners, x: nat)
    requires Agrees(count, own) && x !in count
    ensures Agrees(count[x := 1], own.(creators := own.creators + {x}))
  {
    var own' := own.(creators := own.creators + {x});
    assert References(own, x) == 0;
    forall o: nat
      ensures References(own', o) == References(own, o) + One(o == x)
    {
      assert Handles(own', o) == Handles(own, o);
    }
  }

  lemma AgreesDelete(count: map<nat, nat>, own: Owners, x: nat)
    requires Agrees(count, own) && x in count && count[x] == 0
    ensures Agrees(count - {x}, own)
  {
  }

  lemma AgreesSame(count: map<nat, nat>, own: Owners, own': Owners)
    requires Agrees(count, own) && forall o: nat :: References(own', o) == References(own, o)
    ensures Agrees(count, own')
  {
  }

  lemma AgreesDrop(count: map<nat, nat>, own: Owners, h: nat)
    requires Agrees(count, own) && TargetOf(own, h) == Null
    ensures Agrees(count, Drop(own, h))
  {
    forall o: nat
      ensures References(Drop(own, h), o) == References(own, o)
    {
      DropCounts(own, h, o);
    }
    AgreesSame(count, own, Drop(own, h));
  }

  lemma AgreesMove(count: map<nat, nat>, own: Owners, h: nat, v: nat)
    requires Agrees(count, own) && h != v && TargetOf(own, h) == Null
    ensures Agrees(count, Retarget(Retarget(own, h, TargetOf(own, v)), v, Null))
  {
    var mid := Retarget(own, h, TargetOf(own, v));
    forall o: nat
      ensures References(Retarget(mid, v, Null), o) == References(own, o)
    {
      RetargetCounts(own, h, TargetOf(own, v), o);
      RetargetCounts(mid, v, Null, o);
    }
    AgreesSame(count, own, Retarget(mid, v, Null));
  }

  // ------------------------------------------------- what other threads keep

  ghost predicate Shape(s: State) {
    Handled(s) && Locals(s)
  }

  /** A handle of another thread is as it was. */
  predicate SameHandle(s: State, s': State, h: nat)
    requires h in s.target && h in s.owner
  {
    h in s'.target && h in s'.owner && s'.owner[h] == s.owner[h] && s'.target[h] == s.target[h] && CountedAs(s', h) == CountedAs(s, h)
  }

  /** A step of thread t leaves the other threads' program counters, handles and tokens alone. */
  ghost predicate OnlyTouches(s: State, s': State, t: nat) {
    && |s'.pcs| == |s.pcs| && (forall u :: 0 <= u < |s.pcs| && u != t ==> s'.pcs[u] == s.pcs[u])
    && (forall h :: h in s.target && h in s.owner && s.owner[h] != t ==> SameHandle(s, s', h))
    && (forall h :: h in s'.target && h in s'.owner && s'.owner[h] != t ==> h in s.target && h in s.owner && s.owner[h] != t)
    && (forall o :: o in s.tokens && s.tokens[o] != Held(t) ==> o in s'.tokens && s'.tokens[o] == s.tokens[o])
    && (forall u, o :: u != t && Deletes(s, u, o) && o in s.count && s.count[o] == 0 ==> o in s'.count && s'.count[o] == 0)
  }

  lemma OtherLocal(s: State, s': State, t: nat, u: nat)
    requires OnlyTouches(s, s', t) && u < |s.pcs| && u != t && Local(s, u)
    ensures Local(s', u)
  {
    assert s'.pcs[u] == s.pcs[u];
    if s.pcs[u].Deleting? {
      assert Deletes(s, u, s.pcs[u].o);
    }
  }

  lemma OtherHandles(s: State, s': State, t: nat, h: nat)
    requires OnlyTouches(s, s', t) && Handled(s) && h in s'.target && h in s'.owner && s'.owner[h] != t
    ensures HandleFits(s', h)
  {
    assert HandleFits(s, h) && SameHandle(s, s', h);
  }

  /** It remains to look at the thread itself and its handles. */
  lemma FromOthers(s: State, s': State, t: nat)
    requires OnlyTouches(s, s', t) && Shape(s) && t < |s.pcs|
    requires s'.owner.Keys == s'.target.Keys && s'.counted.Keys <= s'.target.Keys
    requires Local(s', t)
    requires forall h :: h in s'.target && h in s'.owner && s'.owner[h] == t ==> HandleFits(s', h)
    ensures Shape(s')
  {
    forall u | 0 <= u < |s'.pcs|
      ensures Local(s', u)
    {
      if u != t {
        OtherLocal(s, s', t, u);
      }
    }
    forall h | h in s'.target
      ensures HandleFits(s', h)
    {
      if s'.owner[h] != t {
        OtherHandles(s, s', t, h);
      }
    }
  }

  // ------------------------------------------------------- what is still alive

  /** The object of an AddRef that is about to happen is still referenced by the thread itself. */
  lemma AddAlive(s: State, t: nat)
    requires Shape(s) && Agrees(s.count, Own(s)) && t < |s.pcs| && s.pcs[t].Adding?
    ensures s.pcs[t].o in s.count && s.count[s.pcs[t].o] >= 1
  {
    var pc := s.pcs[t];
    assert Local(s, t);
    match pc.source
    case FromToken => assert References(Own(s), pc.o) >= 1;
    case FromHandle(v) =>
      assert HandleFits(s, v);
      assert v in Handles(Own(s), pc.o);
  }

  lemma ReleaseAlive(s: State, t: nat)
    requires Shape(s) && Agrees(s.count, Own(s)) && t < |s.pcs| && s.pcs[t].Releasing?
    ensures s.pcs[t].o in s.count && s.count[s.pcs[t].o] >= 1
    ensures !s.pcs[t].goal.Nothing? ==> CountedAs(s, s.pcs[t].goal.h) == To(s.pcs[t].o)
  {
    var pc := s.pcs[t];
    assert Local(s, t);
    if pc.goal.Nothing? {
      assert References(Own(s), pc.o) >= 1;
    } else {
      assert HandleFits(s, pc.goal.h);
      assert pc.goal.h in Handles(Own(s), pc.o);
    }
  }

  /** No thread is ever stopped by a missing object: whatever the next instruction touches exists. */
  lemma AlwaysContinues(s: State, t: nat)
    requires Shape(s) && Agrees(s.count, Own(s)) && t < |s.pcs| && !s.pcs[t].Idle?
    ensures CanContinue(s, t)
  {
    assert Local(s, t);
    if s.pcs[t].Adding? {
      AddAlive(s, t);
    } else if s.pcs[t].Releasing? {
      ReleaseAlive(s, t);
    }
  }

  /** Whoever is about to delete an object is the only thread whose next instruction touches it. */
  lemma NobodyElse(s: State, t: nat, u: nat, o: nat)
    requires Shape(s) && Agrees(s.count, Own(s)) && Dying(s) && Deletes(s, t, o) && u < |s.pcs| && u != t
    ensures o !in Touched(s.pcs[u])
  {
    assert Local(s, t);
    if s.pcs[u].Adding? {
      AddAlive(s, u);
    } else if s.pcs[u].Releasing? {
      ReleaseAlive(s, u);
    } else if s.pcs[u].Deleting? {
      assert Deletes(s, u, s.pcs[u].o);
    }
  }

  // -------------------------------------------------------- one more instruction

  lemma ResumeOther(s: State, t: nat, h: nat)
    requires CanContinue(s, t) && Local(s, t) && h in s.target && h in s.owner && s.owner[h] != t
    ensures SameHandle(s, Resume(s, t), h)
  {
  }

  lemma ResumeBack(s: State, t: nat, h: nat)
    requires CanContinue(s, t) && Local(s, t)
    requires var s' := Resume(s, t); h in s'.target && h in s'.owner && s'.owner[h] != t
    ensures h in s.target && h in s.owner && s.owner[h] != t
  {
  }

  lemma ResumeToken(s: State, t: nat, o: nat)
    requires CanContinue(s, t) && Local(s, t) && o in s.tokens && s.tokens[o] != Held(t)
    ensures o in Resume(s, t).tokens && Resume(s, t).tokens[o] == s.tokens[o]
  {
  }

  lemma ResumeCount(s: State, t: nat, o: nat)
    requires CanContinue(s, t) && o in s.count && o !in Touched(s.pcs[t])
    ensures o in Resume(s, t).count && Resume(s, t).count[o] == s.count[o]
  {
  }

  lemma ResumePcs(s: State, t: nat, u: nat)
    requires CanContinue(s, t) && u < |s.pcs| && u != t
    ensures |Resume(s, t).pcs| == |s.pcs| && Resume(s, t).pcs[u] == s.pcs[u]
  {
  }

  lemma ResumeKeys(s: State, t: nat)
    requires CanContinue(s, t) && Local(s, t) && s.owner.Keys == s.target.Keys && s.counted.Keys <= s.target.Keys
    ensures var s' := Resume(s, t); s'.owner.Keys == s'.target.Keys && s'.counted.Keys <= s'.target.Keys && |s'.pcs| == |s.pcs|
  {
  }

  lemma CountLocal(s: State, t: nat)
    requires CanContinue(s, t) && Local(s, t) && (s.pcs[t].Releasing? || s.pcs[t].Deleting?)
    ensures t < |Resume(s, t).pcs| && Local(Resume(s, t), t)
  {
    var s', goal := Resume(s, t), s.pcs[t].goal;
    assert s'.target == s.target && s'.owner == s.owner;
    assert GoalFits(s', t, goal);
  }

  lemma PointerLocal(s: State, t: nat)
    requires CanContinue(s, t) && Local(s, t) && !s.pcs[t].Releasing? && !s.pcs[t].Deleting?
    ensures t < |Resume(s, t).pcs| && Local(Resume(s, t), t)
  {
  }

  lemma ResumeLocal(s: State, t: nat)
    requires CanContinue(s, t) && Local(s, t)
    ensures t < |Resume(s, t).pcs| && Local(Resume(s, t), t)
  {
    if s.pcs[t].Releasing? || s.pcs[t].Deleting? {
      CountLocal(s, t);
    } else {
      PointerLocal(s, t);
    }
  }

  lemma ResumeOwn(s: State, t: nat, x: nat)
    requires CanContinue(s, t) && Local(s, t) && Handled(s)
    requires Mine(Resume(s, t), t, x)
    ensures t < |Resume(s, t).pcs| && HandleFits(Resume(s, t), x)
  {
    assert x in s.target && HandleFits(s, x);
    var pc := s.pcs[t];
    if pc.Clearing? {
      assert HandleFits(s, pc.v);
    }
  }

  lemma ResumeTouches(s: State, t: nat)
    requires Shape(s) && CanContinue(s, t)
    requires forall u, o :: u != t && Deletes(s, u, o) ==> o !in Touched(s.pcs[t])
    ensures OnlyTouches(s, Resume(s, t), t)
  {
    var s' := Resume(s, t);
    assert Local(s, t);
    ResumeKeys(s, t);
    forall u | 0 <= u < |s.pcs| && u != t
      ensures s'.pcs[u] == s.pcs[u]
    {
      ResumePcs(s, t, u);
    }
    forall h | h in s.target && h in s.owner && s.owner[h] != t
      ensures SameHandle(s, s', h)
    {
      ResumeOther(s, t, h);
    }
    forall h | h in s'.target && h in s'.owner && s'.owner[h] != t
      ensures h in s.target && h in s.owner && s.owner[h] != t
    {
      ResumeBack(s, t, h);
    }
    forall o | o in s.tokens && s.tokens[o] != Held(t)
      ensures o in s'.tokens && s'.tokens[o] == s.tokens[o]
    {
      ResumeToken(s, t, o);
    }
    forall u, o | u != t && Deletes(s, u, o) && o in s.count && s.count[o] == 0
      ensures o in s'.count && s'.count[o] == 0
    {
      ResumeCount(s, t, o);
    }
  }

  lemma ResumeShape(s: State, t: nat)
    requires Shape(s) && CanContinue(s, t)
    requires forall u, o :: u != t && Deletes(s, u, o) ==> o !in Touched(s.pcs[t])
    ensures Shape(Resume(s, t))
  {
    var s' := Resume(s, t);
    assert Local(s, t);
    ResumeTouches(s, t);
    ResumeKeys(s, t);
    ResumeLocal(s, t);
    forall h | h in s'.target && h in s'.owner && s'.owner[h] == t
      ensures HandleFits(s', h)
    {
      ResumeOwn(s, t, h);
    }
    FromOthers(s, s', t);
  }

  // ---------------------------------------------------------------- its counts

  lemma ReleaseAgrees(s: State, t: nat)
    requires Shape(s) && Agrees(s.count, Own(s)) && CanContinue(s, t) && s.pcs[t].Releasing?
    ensures Agrees(Resume(s, t).count, Own(Resume(s, t)))
  {
    var s', pc := Resume(s, t), s.pcs[t];
    ReleaseAlive(s, t);
    assert Local(s, t);
    if pc.goal.Nothing? {
      AgreesSubToken(s.count, Own(s), pc.o);
      assert Own(s') == Own(s).(creators := Own(s).creators - {pc.o});
    } else {
      AgreesSub(s.count, Own(s), pc.goal.h, pc.o);
      assert Own(s') == Retarget(Own(s), pc.goal.h, Null);
    }
  }

  lemma PointerAgrees(s: State, t: nat)
    requires Shape(s) && Agrees(s.count, Own(s)) && CanContinue(s, t)
    requires s.pcs[t].Storing? || s.pcs[t].Clearing? || s.pcs[t].Leaving?
    ensures Agrees(Resume(s, t).count, Own(Resume(s, t)))
  {
    var s', pc := Resume(s, t), s.pcs[t];
    assert Local(s, t) && HandleFits(s, pc.h);
    if pc.Clearing? {
      assert HandleFits(s, pc.v);
      AgreesMove(s.count, Own(s), pc.h, pc.v);
      assert Own(s') == Retarget(Retarget(Own(s), pc.h, CountedAs(s, pc.v)), pc.v, Null);
    } else if pc.Leaving? {
      AgreesDrop(s.count, Own(s), pc.h);
      assert Own(s') == Drop(Own(s), pc.h);
    } else {
      assert Own(s') == Own(s);
    }
  }

  lemma ResumeAgrees(s: State, t: nat)
    requires Shape(s) && Agrees(s.count, Own(s)) && CanContinue(s, t)
    ensures Agrees(Resume(s, t).count, Own(Resume(s, t)))
  {
    var s', pc := Resume(s, t), s.pcs[t];
    assert Local(s, t);
    match pc
    case Adding(h, o, _) =>
      assert HandleFits(s, h);
      AgreesAdd(s.count, Own(s), h, o);
      assert Own(s') == Retarget(Own(s), h, To(o));
    case Releasing(_, _) => ReleaseAgrees(s, t);
    case Deleting(o, _) =>
      AgreesDelete(s.count, Own(s), o);
      assert Own(s') == Own(s);
    case _ => PointerAgrees(s, t);
  }

  // ------------------------------------------------------------- its deletions

  /** The thread's next instruction is the fetch_sub that finds count 1. */
  predicate LastRelease(s: State, t: nat) {
    t < |s.pcs| && s.pcs[t].Releasing? && s.pcs[t].o in s.count && s.count[s.pcs[t].o] == 1
  }

  lemma ResumeDeletes(s: State, t: nat, u: nat, o: nat)
    requires CanContinue(s, t)
    ensures Deletes(Resume(s, t), u, o) <==>
            if u == t then LastRelease(s, t) && o == s.pcs[t].o else Deletes(s, u, o)
  {
  }

  lemma ResumeZero(s: State, t: nat, o: nat)
    requires CanContinue(s, t) && o in Resume(s, t).count && Resume(s, t).count[o] == 0
    ensures (LastRelease(s, t) && o == s.pcs[t].o) || (o in s.count && s.count[o] == 0 && !Deletes(s, t, o))
  {
  }

  lemma ResumeDying(s: State, t: nat)
    requires Shape(s) && Agrees(s.count, Own(s)) && Dying(s) && CanContinue(s, t)
    ensures Dying(Resume(s, t))
  {
    var s' := Resume(s, t);
    forall o | o in s'.count && s'.count[o] == 0
      ensures exists u :: Deletes(s', u, o)
    {
      ResumeZero(s, t, o);
      if LastRelease(s, t) && o == s.pcs[t].o {
        ResumeDeletes(s, t, t, o);
      } else {
        var u :| Deletes(s, u, o);
        ResumeDeletes(s, t, u, o);
      }
    }
    forall u, w, o | Deletes(s', u, o) && Deletes(s', w, o)
      ensures u == w
    {
      OneDeleter(s, t, u, w, o);
    }
  }

  lemma OneDeleter(s: State, t: nat, u: nat, w: nat, o: nat)
    requires Shape(s) && Agrees(s.count, Own(s)) && Dying(s) && CanContinue(s, t)
    requires Deletes(Resume(s, t), u, o) && Deletes(Resume(s, t), w, o)
    ensures u == w
  {
    ResumeDeletes(s, t, u, o);
    ResumeDeletes(s, t, w, o);
    if u != t && w == t {
      NobodyElse(s, u, t, o);
    } else if u == t && w != t {
      NobodyElse(s, w, t, o);
    }
  }

  lemma ResumeLives(s: State, t: nat)
    requires Lives(s) && CanContinue(s, t)
    ensures Lives(Resume(s, t))
  {
    var s', pc := Resume(s, t), s.pcs[t];
    if pc.Deleting? {
      assert s'.count == s.count - {pc.o} && s'.deleted == s.deleted + [pc.o] && s'.born == s.born;
    } else {
      assert s'.count.Keys == s.count.Keys && s'.deleted == s.deleted && s'.born == s.born;
    }
  }

  lemma ResumeKeeps(s: State, t: nat)
    requires Inv(s) && CanContinue(s, t)
    ensures Inv(Resume(s, t))
  {
    forall u, o | u != t && Deletes(s, u, o)
      ensures o !in Touched(s.pcs[t])
    {
      NobodyElse(s, u, t, o);
    }
    ResumeShape(s, t);
    ResumeAgrees(s, t);
    ResumeDying(s, t);
    ResumeLives(s, t);
  }

  // ------------------------------------------------------- first instructions

  lemma BeginOther(s: State, e: Event, h: nat)
    requires CanBegin(s, e) && h in s.target && h in s.owner && s.owner[h] != e.t
    ensures SameHandle(s, Begin(s, e), h)
  {
  }

  lemma BeginBack(s: State, e: Event, h: nat)
    requires CanBegin(s, e) && !e.Give?
    requires var s' := Begin(s, e); h in s'.target && h in s'.owner && s'.owner[h] != e.t
    ensures h in s.target && h in s.owner && s.owner[h] != e.t
  {
  }

  lemma BeginToken(s: State, e: Event, o: nat)
    requires CanBegin(s, e) && o in s.tokens && s.tokens[o] != Held(e.t) && (e.Create? ==> o != e.o)
    ensures o in Begin(s, e).tokens && Begin(s, e).tokens[o] == s.tokens[o]
  {
  }

  lemma BeginCount(s: State, e: Event)
    requires CanBegin(s, e)
    ensures Begin(s, e).count == if e.Create? then s.count[e.o := 1] else s.count
    ensures Begin(s, e).born == if e.Create? then s.born + {e.o} else s.born
    ensures Begin(s, e).deleted == s.deleted
  {
  }

  lemma BeginPcs(s: State, e: Event, u: nat)
    requires CanBegin(s, e) && u < |s.pcs|
    ensures |Begin(s, e).pcs| == |s.pcs|
    ensures u != e.t ==> Begin(s, e).pcs[u] == s.pcs[u]
    ensures u == e.t ==> !Begin(s, e).pcs[u].Deleting?
  {
  }

  lemma BeginKeys(s: State, e: Event)
    requires CanBegin(s, e) && s.owner.Keys == s.target.Keys && s.counted.Keys <= s.target.Keys
    ensures var s' := Begin(s, e); s'.owner.Keys == s'.target.Keys && s'.counted.Keys <= s'.target.Keys
  {
  }

  lemma BeginLocal(s: State, e: Event)
    requires CanBegin(s, e) && !e.Give?
    ensures e.t < |Begin(s, e).pcs| && Local(Begin(s, e), e.t)
  {
  }

  lemma BeginOwn(s: State, e: Event, x: nat)
    requires CanBegin(s, e) && Handled(s) && !e.Give? && Mine(Begin(s, e), e.t, x)
    ensures HandleFits(Begin(s, e), x)
  {
    if x in s.target {
      assert HandleFits(s, x);
    } else {
      assert x !in s.counted;
    }
  }

  lemma BeginTouches(s: State, e: Event)
    requires Shape(s) && CanBegin(s, e) && !e.Give? && (e.Create? ==> e.o !in s.tokens && e.o !in s.count)
    ensures OnlyTouches(s, Begin(s, e), e.t)
  {
    var s', t := Begin(s, e), e.t;
    BeginCount(s, e);
    BeginPcs(s, e, t);
    forall u | 0 <= u < |s.pcs| && u != t
      ensures s'.pcs[u] == s.pcs[u]
    {
      BeginPcs(s, e, u);
    }
    forall h | h in s.target && h in s.owner && s.owner[h] != t
      ensures SameHandle(s, s', h)
    {
      BeginOther(s, e, h);
    }
    forall h | h in s'.target && h in s'.owner && s'.owner[h] != t
      ensures h in s.target && h in s.owner && s.owner[h] != t
    {
      BeginBack(s, e, h);
    }
    forall o | o in s.tokens && s.tokens[o] != Held(t)
      ensures o in s'.tokens && s'.tokens[o] == s.tokens[o]
    {
      BeginToken(s, e, o);
    }
  }

  lemma BeginShape(s: State, e: Event)
    requires Shape(s) && CanBegin(s, e) && !e.Give? && (e.Create? ==> e.o !in s.tokens && e.o !in s.count)
    ensures Shape(Begin(s, e))
  {
    var s', t := Begin(s, e), e.t;
    BeginTouches(s, e);
    BeginKeys(s, e);
    BeginLocal(s, e);
    forall h | h in s'.target && h in s'.owner && s'.owner[h] == t
      ensures HandleFits(s', h)
    {
      BeginOwn(s, e, h);
    }
    FromOthers(s, s', t);
  }

  lemma GiveFits(s: State, t: nat, h: nat, u: nat, x: nat)
    requires Shape(s) && CanBegin(s, Give(t, h, u)) && x in s.target
    ensures HandleFits(Begin(s, Give(t, h, u)), x)
  {
    assert HandleFits(s, x) && Local(s, u);
  }

  lemma GiveLocal(s: State, t: nat, h: nat, u: nat, w: nat)
    requires CanBegin(s, Give(t, h, u)) && w < |s.pcs| && Local(s, w)
    ensures Local(Begin(s, Give(t, h, u)), w)
  {
  }

  lemma GiveShape(s: State, t: nat, h: nat, u: nat)
    requires Shape(s) && CanBegin(s, Give(t, h, u))
    ensures Shape(Begin(s, Give(t, h, u)))
  {
    var s' := Begin(s, Give(t, h, u));
    forall x | x in s'.target
      ensures HandleFits(s', x)
    {
      GiveFits(s, t, h, u, x);
    }
    forall w | 0 <= w < |s'.pcs|
      ensures Local(s', w)
    {
      GiveLocal(s, t, h, u, w);
    }
  }

  lemma BeginAgrees(s: State, e: Event)
    requires Shape(s) && Agrees(s.count, Own(s)) && CanBegin(s, e) && (e.Create? ==> e.o !in s.count)
    ensures Agrees(Begin(s, e).count, Own(Begin(s, e)))
  {
    var s' := Begin(s, e);
    if e.Create? {
      AgreesNew(s.count, Own(s), e.o);
      assert Own(s') == Own(s).(creators := Own(s).creators + {e.o});
    } else {
      assert s'.tokens.Keys == s.tokens.Keys && s'.counted == s.counted;
    }
  }

  lemma BeginDying(s: State, e: Event)
    requires Dying(s) && CanBegin(s, e)
    ensures Dying(Begin(s, e))
  {
    var s' := Begin(s, e);
    BeginCount(s, e);
    forall u: nat, o
      ensures Deletes(s', u, o) <==> Deletes(s, u, o)
    {
      BeginPcs(s, e, e.t);
      if u < |s.pcs| {
        BeginPcs(s, e, u);
      }
    }
  }

  lemma BeginLives(s: State, e: Event)
    requires Lives(s) && CanBegin(s, e)
    ensures Lives(Begin(s, e))
  {
    BeginCount(s, e);
  }

  lemma BeginKeeps(s: State, e: Event)
    requires Inv(s) && CanBegin(s, e)
    ensures Inv(Begin(s, e))
  {
    if e.Create? {
      assert e.o !in s.count && References(Own(s), e.o) == 0;
    }
    if e.Give? {
      GiveShape(s, e.t, e.h, e.u);
    } else {
      BeginShape(s, e);
    }
    BeginAgrees(s, e);
    BeginDying(s, e);
    BeginLives(s, e);
  }

  // ------------------------------------------------------------------ all runs

  lemma NextKeeps(s: State, e: Event)
    requires Inv(s)
    ensures Inv(Next(s, e))
  {
    if e.Continue? && CanContinue(s, e.t) {
      ResumeKeeps(s, e.t);
    } else if !e.Continue? && CanBegin(s, e) {
      BeginKeeps(s, e);
    }
  }

  lemma InitialInv(threads: nat)
    ensures Inv(Initial(threads))
  {
  }

  /** The invariant holds in every interleaving. */
  lemma {:induction false} InvRun(threads: nat, run: seq<Event>)
    ensures Inv(Run(threads, run))
    decreases |run|
  {
    if run == [] {
      InitialInv(threads);
    } else {
      InvRun(threads, run[..|run| - 1]);
      NextKeeps(Run(threads, run[..|run| - 1]), run[|run| - 1]);
    }
  }

  // ------------------------------------------------------------ consequences

  /**
    In every interleaving every instruction on a count, and every delete, finds its object
    still there; only a thread that is about to delete finds count 0, and it is the only one.
   */
  lemma TouchesOnlyLiving(threads: nat, run: seq<Event>, t: nat, o: nat)
    requires t < |Run(threads, run).pcs| && o in Touched(Run(threads, run).pcs[t])
    ensures
      var s := Run(threads, run);
      && CanContinue(s, t) && o in s.count && o !in s.deleted
      && (s.pcs[t].Deleting? <==> s.count[o] == 0)
      && (s.pcs[t].Deleting? ==> forall u :: 0 <= u < |s.pcs| && u != t ==> o !in Touched(s.pcs[u]))
  {
    InvRun(threads, run);
    var s := Run(threads, run);
    AlwaysContinues(s, t);
    assert Local(s, t);
    if s.pcs[t].Adding? {
      AddAlive(s, t);
    } else if s.pcs[t].Deleting? {
      assert Deletes(s, t, o);
      forall u | 0 <= u < |s.pcs| && u != t
        ensures o !in Touched(s.pcs[u])
      {
        NobodyElse(s, t, u, o);
      }
    }
  }

  /** A Release leads to deletion exactly when it gives up the only reference there is. */
  lemma LastReleaseDeletes(threads: nat, run: seq<Event>, t: nat)
    requires t < |Run(threads, run).pcs| && Run(threads, run).pcs[t].Releasing?
    ensures
      var s := Run(threads, run);
      Deletes(Next(s, Continue(t)), t, s.pcs[t].o) <==> References(Own(s), s.pcs[t].o) == 1
  {
    InvRun(threads, run);
    var s := Run(threads, run);
    AlwaysContinues(s, t);
    ResumeDeletes(s, t, t, s.pcs[t].o);
  }

  /** No object is deleted twice, and none that was deleted exists or is ever created again. */
  lemma DeletedOnce(threads: nat, run: seq<Event>)
    ensures
      var s := Run(threads, run);
      && (forall i, j :: 0 <= i < j < |s.deleted| ==> s.deleted[i] != s.deleted[j])
      && (forall o :: o in s.deleted ==> o in s.born && o !in s.count)
  {
    InvRun(threads, run);
  }

  ghost predicate Quiet(s: State) {
    forall t :: 0 <= t < |s.pcs| ==> s.pcs[t].Idle?
  }

  /**
    Whenever no operation is under way, exactly the referenced objects exist, each with its
    number of references as count, and every other object ever created has been deleted.
   */
  lemma QuietIsExact(threads: nat, run: seq<Event>)
    requires Quiet(Run(threads, run))
    ensures
      var s := Run(threads, run);
      && Exact(s.count, Owners(s.tokens.Keys, s.target))
      && forall o :: o in s.born && References(Owners(s.tokens.Keys, s.target), o) == 0 ==> o in s.deleted
  {
    InvRun(threads, run);
    var s := Run(threads, run);
    var own := Owners(s.tokens.Keys, s.target);
    forall o: nat
      ensures References(own, o) == References(Own(s), o)
      ensures o in s.count ==> s.count[o] > 0
    {
      QuietHandles(s, o);
      assert o in s.count && s.count[o] == 0 ==> exists t :: Deletes(s, t, o);
    }
  }

  lemma QuietHandles(s: State, o: nat)
    requires Handled(s) && Quiet(s)
    ensures Handles(Owners(s.tokens.Keys, s.target), o) == Handles(Own(s), o)
  {
    forall h | h in s.target
      ensures CountedAs(s, h) == s.target[h]
    {
      assert HandleFits(s, h);
    }
  }
}
