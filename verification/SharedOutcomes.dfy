/**
  Where the handles point after interleaved operations.  Every operation takes effect as a
  whole at its first instruction: in every interleaving, pointers and creators' references
  are those of the operations begun, executed one after the other, up to what the threads in
  the middle of an operation still have to do.
 */
module SharedOutcomes {
  import opened SharedCounts
  import R = RefCounts

  /** What is left of an operation, as far as pointers are concerned. */
  function Remaining(pc: Pc): Goal {
    match pc
    case Releasing(_, goal) => goal
    case Deleting(_, goal) => goal
    case Leaving(h) => Vanish(h)
    case Storing(h, v, move) => Assign(h, v, move)
    case Clearing(h, v) => Assign(h, v, true)
    case _ => Nothing
  }

  function GoalOf(s: State, h: nat): Goal {
    if h in s.owner && s.owner[h] < |s.pcs| then Remaining(s.pcs[s.owner[h]]) else Nothing
  }

  /** The handle's destructor is under way. */
  predicate Gone(s: State, h: nat) {
    GoalOf(s, h) == Vanish(h)
  }

  /** Where the handle will point when its thread's operation is over. */
  function FinalPtr(s: State, h: nat): R.Ptr
    requires h in s.target
  {
    var goal := GoalOf(s, h);
    if goal.Assign? && goal.h == h && goal.v in s.target then s.target[goal.v]
    else if goal.Assign? && goal.v == h && goal.move then R.Null
    else s.target[h]
  }

  /** The creator's reference is being released. */
  predicate Dropping(s: State, o: nat)
    requires o in s.tokens
  {
    s.tokens[o].Held? && s.tokens[o].thread < |s.pcs| && s.pcs[s.tokens[o].thread] == Releasing(o, Nothing)
  }

  function Abs(s: State): R.Owners {
    R.Owners(set o | o in s.tokens && !Dropping(s, o), map h | h in s.target && !Gone(s, h) :: FinalPtr(s, h))
  }

  predicate SameEntry(a: R.Owners, b: R.Owners, x: nat) {
    && (x in a.target <==> x in b.target) && (x in a.target && x in b.target ==> a.target[x] == b.target[x])
    && (x in a.creators <==> x in b.creators)
  }

  lemma SameOwners(a: R.Owners, b: R.Owners)
    requires forall x: nat :: SameEntry(a, b, x)
    ensures a == b
  {
    assert a.target.Keys == b.target.Keys by {
      assert forall x: nat :: SameEntry(a, b, x) ==> (x in a.target <==> x in b.target);
    }
    forall x | x in a.target
      ensures a.target[x] == b.target[x]
    {
      assert SameEntry(a, b, x);
    }
    assert a.creators == b.creators by {
      assert forall x: nat :: SameEntry(a, b, x) ==> (x in a.creators <==> x in b.creators);
    }
  }

  // ------------------------------------------------------ unfinished operations

  lemma OtherFinal(s: State, s': State, t: nat, h: nat)
    requires Shape(s) && OnlyTouches(s, s', t) && h in s.target && h in s.owner && s.owner[h] != t
    ensures h in s'.target && Gone(s', h) == Gone(s, h) && FinalPtr(s', h) == FinalPtr(s, h)
  {
    var u := s.owner[h];
    assert SameHandle(s, s', h) && HandleFits(s, h) && Local(s, u);
    var goal := GoalOf(s, h);
    if goal.Assign? {
      assert Mine(s, u, goal.v) && SameHandle(s, s', goal.v);
    }
  }

  lemma OwnFinal(s: State, t: nat, h: nat)
    requires CanContinue(s, t) && Local(s, t) && Mine(s, t, h)
    ensures
      var s' := Resume(s, t);
      if Gone(s, h) then h !in s'.target || Gone(s', h)
      else Mine(s', t, h) && !Gone(s', h) && FinalPtr(s', h) == FinalPtr(s, h)
  {
  }

  lemma ResumeNoNew(s: State, t: nat, h: nat)
    requires CanContinue(s, t) && Local(s, t) && h in Resume(s, t).target
    ensures h in s.target
  {
  }

  lemma ResumeDropping(s: State, t: nat, o: nat)
    requires CanContinue(s, t) && Local(s, t)
    ensures
      var s' := Resume(s, t);
      (o in s'.tokens && !Dropping(s', o)) <==> (o in s.tokens && !Dropping(s, o))
  {
  }

  lemma ResumeAbs(s: State, t: nat)
    requires Inv(s) && CanContinue(s, t)
    ensures Abs(Resume(s, t)) == Abs(s)
  {
    var s' := Resume(s, t);
    assert Local(s, t);
    forall u, o | u != t && Deletes(s, u, o)
      ensures o !in Touched(s.pcs[t])
    {
      NobodyElse(s, u, t, o);
    }
    ResumeTouches(s, t);
    forall x
      ensures SameEntry(Abs(s'), Abs(s), x)
    {
      ResumeHandle(s, t, x);
      ResumeDropping(s, t, x);
    }
    SameOwners(Abs(s'), Abs(s));
  }

  lemma ResumeHandle(s: State, t: nat, h: nat)
    requires Shape(s) && CanContinue(s, t) && OnlyTouches(s, Resume(s, t), t)
    ensures
      var s' := Resume(s, t);
      && (h in s'.target && !Gone(s', h) <==> h in s.target && !Gone(s, h))
      && (h in s.target && !Gone(s, h) ==> FinalPtr(s', h) == FinalPtr(s, h))
  {
    assert Local(s, t);
    if h in s.target {
      assert HandleFits(s, h);
      if s.owner[h] == t {
        OwnFinal(s, t, h);
      } else {
        OtherFinal(s, Resume(s, t), t, h);
      }
    } else if h in Resume(s, t).target {
      ResumeNoNew(s, t, h);
    }
  }

  // ------------------------------------------------------------- new operations

  predicate IsOperation(e: Event) {
    !e.Keep? && !e.Give? && !e.Continue?
  }

  function OpOf(e: Event): R.Op
    requires IsOperation(e)
  {
    match e
    case Create(_, o) => R.NewObject(o)
    case DropToken(_, o) => R.DropCreator(o)
    case MakeNull(_, h) => R.MakeNull(h)
    case MakeRaw(_, h, o) => R.MakeRaw(h, o)
    case MakeCopy(_, h, v) => R.MakeCopy(h, v)
    case MakeMove(_, h, v) => R.MakeMove(h, v)
    case Kill(_, h) => R.Kill(h)
    case AssignTo(_, h, v, move) => if move then R.AssignMove(h, v) else R.AssignCopy(h, v)
  }

  /** An idle thread's handles are final. */
  lemma IdleFinal(s: State, t: nat, h: nat)
    requires IsIdle(s, t) && Mine(s, t, h)
    ensures !Gone(s, h) && FinalPtr(s, h) == s.target[h]
  {
  }

  lemma TokenKept(s: State, t: nat, o: nat)
    requires IsIdle(s, t) && Safe(s, t, o)
    ensures !Dropping(s, o)
  {
  }

  /** Whatever a handle points to, now or finally, exists. */
  lemma CountedAlive(s: State, h: nat, o: nat)
    requires Inv(s) && h in s.target && CountedAs(s, h) == R.To(o)
    ensures o in s.count
  {
    assert h in R.Handles(Own(s), o);
  }

  lemma TargetAlive(s: State, h: nat, o: nat)
    requires Inv(s) && h in s.target && s.target[h] == R.To(o)
    requires h !in Special(s.pcs[s.owner[h]]) || s.pcs[s.owner[h]].Adding? || s.pcs[s.owner[h]].Clearing?
    ensures o in s.count
  {
    assert HandleFits(s, h);
    var t := s.owner[h];
    assert Local(s, t);
    if h !in Special(s.pcs[t]) {
      CountedAlive(s, h, o);
    } else if s.pcs[t].Adding? {
      AddAlive(s, t);
    } else {
      assert HandleFits(s, s.pcs[t].v);
      CountedAlive(s, s.pcs[t].v, o);
    }
  }

  lemma FinalAlive(s: State, h: nat, o: nat)
    requires Inv(s) && h in s.target && !Gone(s, h) && FinalPtr(s, h) == R.To(o)
    ensures o in s.count
  {
    assert HandleFits(s, h) && Local(s, s.owner[h]);
    var goal := GoalOf(s, h);
    if goal.Assign? && goal.h == h {
      TargetAlive(s, goal.v, o);
    } else {
      TargetAlive(s, h, o);
    }
  }

  lemma TokensCounted(s: State, o: nat)
    requires Inv(s)
    ensures o in s.tokens ==> o in s.count
  {
    assert o in s.tokens ==> R.References(Own(s), o) > 0;
  }

  lemma UnbornUnreferenced(s: State, o: nat)
    requires Inv(s) && o !in s.born
    ensures R.References(Abs(s), o) == 0
  {
    assert o !in s.count;
    TokensCounted(s, o);
    forall h
      ensures h !in R.Handles(Abs(s), o)
    {
      if h in s.target && !Gone(s, h) && FinalPtr(s, h) == R.To(o) {
        FinalAlive(s, h, o);
      }
    }
    assert R.Handles(Abs(s), o) == {};
  }

  /** Whatever may begin here may happen there. */
  lemma OperationsHappen(s: State, e: Event)
    requires Inv(s) && CanBegin(s, e) && IsOperation(e)
    ensures R.CanHappen(Abs(s), OpOf(e))
  {
    match e
    case Create(_, o) => UnbornUnreferenced(s, o);
    case DropToken(t, o) => TokenKept(s, t, o);
    case MakeRaw(t, h, o) =>
      TokenKept(s, t, o);
      assert o in Abs(s).creators;
    case MakeNull(_, h) =>
    case MakeCopy(t, h, v) => IdleFinal(s, t, v);
    case MakeMove(t, h, v) => IdleFinal(s, t, v);
    case Kill(t, h) => IdleFinal(s, t, h);
    case AssignTo(t, h, v, _) =>
      IdleFinal(s, t, h);
      IdleFinal(s, t, v);
  }

  /** The pointers of the beginning thread's handles, once its operation is over. */
  function Result(s: State, e: Event, x: nat): R.Ptr
    requires CanBegin(s, e) && x in Begin(s, e).target
  {
    match e
    case MakeNull(_, h) => if x == h then R.Null else s.target[x]
    case MakeRaw(_, h, o) => if x == h then R.To(o) else s.target[x]
    case MakeCopy(_, h, v) => if x == h then s.target[v] else s.target[x]
    case MakeMove(_, h, v) => if x == h then s.target[v] else if x == v then R.Null else s.target[x]
    case AssignTo(_, h, v, move) =>
      if x == h then s.target[v] else if x == v && move then R.Null else s.target[x]
    case _ => s.target[x]
  }

  lemma BeginOwnFinal(s: State, e: Event, x: nat)
    requires CanBegin(s, e) && !e.Give? && Mine(Begin(s, e), e.t, x)
    ensures Gone(Begin(s, e), x) <==> e.Kill? && e.h == x
    ensures !Gone(Begin(s, e), x) ==> FinalPtr(Begin(s, e), x) == Result(s, e, x)
  {
  }

  lemma BeginSame(s: State, e: Event, x: nat)
    requires CanBegin(s, e) && !e.Give? && x in s.target && x in s.owner
    ensures x in Begin(s, e).target && x in Begin(s, e).owner && Begin(s, e).owner[x] == s.owner[x]
  {
  }

  lemma BeginNew(s: State, e: Event, x: nat)
    requires CanBegin(s, e) && x in Begin(s, e).target && x !in s.target
    ensures (e.MakeNull? || e.MakeRaw? || e.MakeCopy? || e.MakeMove?) && x == e.h && Mine(Begin(s, e), e.t, x)
  {
  }

  lemma StepTarget(own: R.Owners, e: Event, x: nat)
    requires IsOperation(e) && R.CanHappen(own, OpOf(e))
    ensures
      var own' := R.Step(own, OpOf(e));
      && (x in own'.target <==> if e.Kill? then x in own.target && x != e.h
                                else x in own.target || ((e.MakeNull? || e.MakeRaw? || e.MakeCopy? || e.MakeMove?) && x == e.h))
      && (x in own'.target ==>
            own'.target[x] ==
            match e
            case MakeNull(_, h) => if x == h then R.Null else own.target[x]
            case MakeRaw(_, h, o) => if x == h then R.To(o) else own.target[x]
            case MakeCopy(_, h, v) => if x == h then own.target[v] else own.target[x]
            case MakeMove(_, h, v) => if x == v then R.Null else if x == h then own.target[v] else own.target[x]
            case AssignTo(_, h, v, move) =>
              if x == v && move && h != v then R.Null else if x == h then own.target[v] else own.target[x]
            case _ => own.target[x])
  {
  }

  lemma BeginHandle(s: State, e: Event, x: nat)
    requires Inv(s) && CanBegin(s, e) && IsOperation(e) && OnlyTouches(s, Begin(s, e), e.t)
    requires R.CanHappen(Abs(s), OpOf(e))
    ensures
      var s', own' := Begin(s, e), R.Step(Abs(s), OpOf(e));
      && (x in Abs(s').target <==> x in own'.target)
      && (x in own'.target ==> Abs(s').target[x] == own'.target[x])
  {
    var s' := Begin(s, e);
    StepTarget(Abs(s), e, x);
    if x in s.target {
      assert HandleFits(s, x);
      BeginSame(s, e, x);
      if s.owner[x] == e.t {
        IdleFinal(s, e.t, x);
        BeginOwnFinal(s, e, x);
        NamedFinal(s, e);
      } else {
        OtherFinal(s, s', e.t, x);
      }
    } else if x in s'.target {
      BeginNew(s, e, x);
      BeginOwnFinal(s, e, x);
      NamedFinal(s, e);
    }
  }

  /** The source of a copy or move. */
  lemma NamedFinal(s: State, e: Event)
    requires CanBegin(s, e)
    ensures e.MakeCopy? || e.MakeMove? || e.AssignTo? ==> e.v in Abs(s).target && Abs(s).target[e.v] == s.target[e.v]
  {
    if e.MakeCopy? || e.MakeMove? || e.AssignTo? {
      IdleFinal(s, e.t, e.v);
    }
  }

  lemma StepCreators(own: R.Owners, e: Event, o: nat)
    requires IsOperation(e) && R.CanHappen(own, OpOf(e))
    ensures o in R.Step(own, OpOf(e)).creators <==>
            (o in own.creators && !(e.DropToken? && o == e.o)) || (e.Create? && o == e.o)
  {
  }

  lemma BeginCreator(s: State, e: Event, o: nat)
    requires CanBegin(s, e) && IsOperation(e) && R.CanHappen(Abs(s), OpOf(e)) && (e.Create? ==> e.o !in s.tokens)
    ensures o in Abs(Begin(s, e)).creators <==> o in R.Step(Abs(s), OpOf(e)).creators
  {
    BeginTokens(s, e, o);
    StepCreators(Abs(s), e, o);
  }

  lemma BeginTokens(s: State, e: Event, o: nat)
    requires CanBegin(s, e) && IsOperation(e) && (e.Create? ==> e.o !in s.tokens)
    ensures
      var s' := Begin(s, e);
      && (o in s'.tokens <==> o in s.tokens || (e.Create? && o == e.o))
      && (o in s.tokens && !(e.Create? && o == e.o) ==> s'.tokens[o] == s.tokens[o])
      && (o in s'.tokens ==> (Dropping(s', o) <==> (o in s.tokens && Dropping(s, o)) || (e.DropToken? && o == e.o)))
  {
  }

  /** An operation takes effect as a whole where it begins. */
  lemma BeginAbs(s: State, e: Event)
    requires Inv(s) && CanBegin(s, e) && IsOperation(e)
    ensures R.CanHappen(Abs(s), OpOf(e)) && Abs(Begin(s, e)) == R.Step(Abs(s), OpOf(e))
  {
    OperationsHappen(s, e);
    if e.Create? {
      TokensCounted(s, e.o);
    }
    BeginTouches(s, e);
    var now, after := Abs(Begin(s, e)), R.Step(Abs(s), OpOf(e));
    forall x
      ensures SameEntry(now, after, x)
    {
      BeginHandle(s, e, x);
      BeginCreator(s, e, x);
    }
    SameOwners(now, after);
  }

  /** A thread's goal names only its own handles. */
  lemma GoalNamesOwn(s: State, u: nat, h: nat)
    requires Shape(s) && u < |s.pcs| && !Mine(s, u, h)
    ensures var goal := Remaining(s.pcs[u]); !goal.Nothing? ==> goal.h != h && (goal.Assign? ==> goal.v != h)
  {
    assert Local(s, u);
  }

  lemma GiveHandle(s: State, t: nat, h: nat, u: nat, x: nat)
    requires Shape(s) && CanBegin(s, Give(t, h, u)) && x in s.target
    ensures var s' := Begin(s, Give(t, h, u)); Gone(s', x) == Gone(s, x) && FinalPtr(s', x) == FinalPtr(s, x)
  {
    if x == h && u != t {
      IdleFinal(s, t, h);
      GoalNamesOwn(s, u, h);
    }
  }

  /** Handing a handle over, or giving up a token for good, changes nobody's references. */
  lemma GiveEntry(s: State, t: nat, h: nat, u: nat, x: nat)
    requires Shape(s) && CanBegin(s, Give(t, h, u))
    ensures SameEntry(Abs(Begin(s, Give(t, h, u))), Abs(s), x)
  {
    if x in s.target {
      GiveHandle(s, t, h, u, x);
    }
  }

  lemma KeepEntry(s: State, t: nat, o: nat, x: nat)
    requires Shape(s) && CanBegin(s, Keep(t, o))
    ensures SameEntry(Abs(Begin(s, Keep(t, o))), Abs(s), x)
  {
    TokenKept(s, t, o);
  }

  lemma OtherEventAbs(s: State, e: Event)
    requires Shape(s) && CanBegin(s, e) && !IsOperation(e)
    ensures Abs(Begin(s, e)) == Abs(s)
  {
    forall x
      ensures SameEntry(Abs(Begin(s, e)), Abs(s), x)
    {
      if e.Give? {
        GiveEntry(s, e.t, e.h, e.u, x);
      } else {
        KeepEntry(s, e.t, e.o, x);
      }
    }
    SameOwners(Abs(Begin(s, e)), Abs(s));
  }

  // ------------------------------------------------------------------ all runs

  /** The operations begun in a run, in the order in which they began. */
  function Begun(threads: nat, run: seq<Event>): seq<R.Op>
    decreases |run|
  {
    if run == [] then []
    else
      var before, e := run[..|run| - 1], run[|run| - 1];
      if IsOperation(e) && CanBegin(Run(threads, before), e) then Begun(threads, before) + [OpOf(e)] else Begun(threads, before)
  }

  const NOBODY: R.Owners := R.Owners({}, map[])

  lemma {:induction false} ExecAppend(ops: seq<R.Op>, op: R.Op)
    requires R.AllHappen(NOBODY, ops) && R.CanHappen(R.Exec(NOBODY, ops), op)
    ensures R.AllHappen(NOBODY, ops + [op]) && R.Exec(NOBODY, ops + [op]) == R.Step(R.Exec(NOBODY, ops), op)
  {
    assert (ops + [op])[..|ops + [op]| - 1] == ops;
  }

  lemma {:induction false} InitialAbs(threads: nat)
    ensures Abs(Initial(threads)) == NOBODY
  {
    assert Abs(Initial(threads)).target == map[];
  }

  /**
    In every interleaving the pointers and creators' references, with unfinished operations
    carried to their end, are those of the operations begun, executed one after the other;
    and each of these could happen when its turn came.
   */
  lemma {:induction false} RunRefines(threads: nat, run: seq<Event>)
    ensures R.AllHappen(NOBODY, Begun(threads, run))
    ensures Abs(Run(threads, run)) == R.Exec(NOBODY, Begun(threads, run))
    decreases |run|
  {
    if run == [] {
      InitialAbs(threads);
    } else {
      var before, e := run[..|run| - 1], run[|run| - 1];
      var s := Run(threads, before);
      RunRefines(threads, before);
      InvRun(threads, before);
      if e.Continue? {
        if CanContinue(s, e.t) {
          ResumeAbs(s, e.t);
        }
      } else if CanBegin(s, e) {
        if IsOperation(e) {
          BeginAbs(s, e);
          ExecAppend(Begun(threads, before), OpOf(e));
        } else {
          OtherEventAbs(s, e);
        }
      }
    }
  }

  /** Whenever no operation is under way, who refers to what is exactly what the operations begun say. */
  lemma {:induction false} QuietRefines(threads: nat, run: seq<Event>)
    requires Quiet(Run(threads, run))
    ensures var s := Run(threads, run); R.Owners(s.tokens.Keys, s.target) == R.Exec(NOBODY, Begun(threads, run))
  {
    RunRefines(threads, run);
    InvRun(threads, run);
    var s := Run(threads, run);
    forall x
      ensures SameEntry(R.Owners(s.tokens.Keys, s.target), Abs(s), x)
    {
      QuietEntry(s, x);
    }
    SameOwners(R.Owners(s.tokens.Keys, s.target), Abs(s));
  }

  lemma QuietEntry(s: State, x: nat)
    requires Quiet(s)
    ensures SameEntry(R.Owners(s.tokens.Keys, s.target), Abs(s), x)
  {
  }

  // ------------------------------------------------------------- one operation

  /** No event changes the pointer or the owner of another thread's handle. */
  lemma {:induction false} OthersHandlesKept(threads: nat, run: seq<Event>, e: Event, h: nat)
    requires var s := Run(threads, run); h in s.target && h in s.owner && s.owner[h] != e.t
    ensures SameHandle(Run(threads, run), Next(Run(threads, run), e), h)
  {
    InvRun(threads, run);
    var s := Run(threads, run);
    if e.Continue? {
      if CanContinue(s, e.t) {
        assert Local(s, e.t);
        ResumeOther(s, e.t, h);
      }
    } else if CanBegin(s, e) {
      BeginOther(s, e, h);
    }
  }

  /** Handle x belongs to t and will point to p when t's operation is over. */
  predicate Settles(s: State, t: nat, x: nat, p: R.Ptr) {
    Mine(s, t, x) && !Gone(s, x) && FinalPtr(s, x) == p
  }

  lemma {:induction false} OthersSettle(s: State, e: Event, t: nat, x: nat, p: R.Ptr)
    requires Inv(s) && Settles(s, t, x, p) && e.t != t && !e.Give?
    ensures Settles(Next(s, e), t, x, p)
  {
    if e.Continue? && CanContinue(s, e.t) {
      forall u, o | u != e.t && Deletes(s, u, o)
        ensures o !in Touched(s.pcs[e.t])
      {
        NobodyElse(s, u, e.t, o);
      }
      ResumeTouches(s, e.t);
      OtherFinal(s, Resume(s, e.t), e.t, x);
      ResumeOther(s, e.t, x);
    } else if !e.Continue? && CanBegin(s, e) {
      if e.Create? {
        TokensCounted(s, e.o);
      }
      BeginTouches(s, e);
      OtherFinal(s, Begin(s, e), e.t, x);
      BeginOther(s, e, x);
    }
  }

  lemma {:induction false} GiveSettles(s: State, e: Event, t: nat, x: nat, p: R.Ptr)
    requires Inv(s) && Settles(s, t, x, p) && e.t != t && e.Give?
    ensures Settles(Next(s, e), t, x, p)
  {
    if CanBegin(s, e) {
      GiveHandle(s, e.t, e.h, e.u, x);
    }
  }

  lemma {:induction false} SettlesNext(s: State, e: Event, t: nat, x: nat, p: R.Ptr)
    requires Inv(s) && Settles(s, t, x, p) && (e.t != t || e.Continue?)
    ensures Settles(Next(s, e), t, x, p)
  {
    if e.t == t {
      if CanContinue(s, t) {
        assert Local(s, t);
        OwnFinal(s, t, x);
      }
    } else if e.Give? {
      GiveSettles(s, e, t, x, p);
    } else {
      OthersSettle(s, e, t, x, p);
    }
  }

  /** In these events thread t begins nothing: it only goes on with what it has begun. */
  predicate BeginsNothing(rest: seq<Event>, t: nat) {
    forall k :: 0 <= k < |rest| ==> rest[k].t != t || rest[k].Continue?
  }

  lemma {:induction false} RunAppend(threads: nat, run: seq<Event>, e: Event)
    ensures Run(threads, run + [e]) == Next(Run(threads, run), e)
  {
    assert (run + [e])[..|run + [e]| - 1] == run;
  }

  lemma {:induction false} StaysSettled(threads: nat, run: seq<Event>, rest: seq<Event>, t: nat, x: nat, p: R.Ptr)
    requires Settles(Run(threads, run), t, x, p) && BeginsNothing(rest, t)
    ensures Settles(Run(threads, run + rest), t, x, p)
    decreases |rest|
  {
    if rest == [] {
      assert run + rest == run;
    } else {
      var rest', e := rest[..|rest| - 1], rest[|rest| - 1];
      StaysSettled(threads, run, rest', t, x, p);
      assert run + rest == (run + rest') + [e];
      RunAppend(threads, run + rest', e);
      InvRun(threads, run + rest');
      SettlesNext(Run(threads, run + rest'), e, t, x, p);
    }
  }

  /**
    However it is interleaved: when an operation is over, each handle of its thread, the
    killed one aside, points where the operation alone would have left it.
   */
  lemma {:induction false} OperationEnds(threads: nat, run: seq<Event>, e: Event, rest: seq<Event>, x: nat)
    requires var s := Run(threads, run); CanBegin(s, e) && !e.Give? && Mine(Begin(s, e), e.t, x)
    requires !(e.Kill? && e.h == x) && BeginsNothing(rest, e.t)
    requires IsIdle(Run(threads, (run + [e]) + rest), e.t)
    ensures
      var s, end := Run(threads, run), Run(threads, (run + [e]) + rest);
      Mine(end, e.t, x) && end.target[x] == Result(s, e, x)
  {
    var s := Run(threads, run);
    RunAppend(threads, run, e);
    BeginOwnFinal(s, e, x);
    StaysSettled(threads, run + [e], rest, e.t, x, Result(s, e, x));
    IdleFinal(Run(threads, (run + [e]) + rest), e.t, x);
  }

  predicate Making(e: Event, h: nat) {
    (e.MakeNull? || e.MakeRaw? || e.MakeCopy? || e.MakeMove?) && e.h == h
  }

  /** The handle is gone, or its thread is about to end its destructor. */
  predicate Ending(s: State, t: nat, h: nat) {
    h !in s.target || (Mine(s, t, h) && Gone(s, h))
  }

  lemma {:induction false} OthersEnding(s: State, e: Event, t: nat, h: nat)
    requires Inv(s) && Mine(s, t, h) && Gone(s, h) && e.t != t
    ensures Mine(Next(s, e), t, h) && Gone(Next(s, e), h)
  {
    if e.Continue? {
      if CanContinue(s, e.t) {
        assert Local(s, e.t);
        ResumeOther(s, e.t, h);
        ResumePcs(s, e.t, t);
      }
    } else if CanBegin(s, e) {
      BeginOther(s, e, h);
      BeginPcs(s, e, t);
    }
  }

  lemma {:induction false} EndingNext(s: State, e: Event, t: nat, h: nat)
    requires Inv(s) && Ending(s, t, h) && (e.t != t || e.Continue?) && !Making(e, h)
    ensures Ending(Next(s, e), t, h)
  {
    if h !in s.target {
      if e.Continue? && CanContinue(s, e.t) {
        assert Local(s, e.t);
        if h in Resume(s, e.t).target {
          ResumeNoNew(s, e.t, h);
        }
      } else if !e.Continue? && CanBegin(s, e) && h in Begin(s, e).target {
        BeginNew(s, e, h);
      }
    } else if e.t == t {
      if CanContinue(s, t) {
        assert Local(s, t);
        OwnFinal(s, t, h);
        OwnerStays(s, t, h);
      }
    } else {
      OthersEnding(s, e, t, h);
    }
  }

  lemma {:induction false} OwnerStays(s: State, t: nat, h: nat)
    requires CanContinue(s, t) && Local(s, t) && Mine(s, t, h)
    ensures h in Resume(s, t).target ==> Mine(Resume(s, t), t, h)
  {
  }

  lemma {:induction false} StaysEnding(threads: nat, run: seq<Event>, rest: seq<Event>, t: nat, h: nat)
    requires Ending(Run(threads, run), t, h) && BeginsNothing(rest, t)
    requires forall k :: 0 <= k < |rest| ==> !Making(rest[k], h)
    ensures Ending(Run(threads, run + rest), t, h)
    decreases |rest|
  {
    if rest == [] {
      assert run + rest == run;
    } else {
      var rest', e := rest[..|rest| - 1], rest[|rest| - 1];
      StaysEnding(threads, run, rest', t, h);
      assert run + rest == (run + rest') + [e];
      RunAppend(threads, run + rest', e);
      InvRun(threads, run + rest');
      EndingNext(Run(threads, run + rest'), e, t, h);
    }
  }

  /** When a destructor is over the handle is gone, unless a new one has been made in its place. */
  lemma {:induction false} KillEnds(threads: nat, run: seq<Event>, t: nat, h: nat, rest: seq<Event>)
    requires CanBegin(Run(threads, run), Kill(t, h)) && BeginsNothing(rest, t)
    requires forall k :: 0 <= k < |rest| ==> !Making(rest[k], h)
    requires IsIdle(Run(threads, (run + [Kill(t, h)]) + rest), t)
    ensures h !in Run(threads, (run + [Kill(t, h)]) + rest).target
  {
    var s, e := Run(threads, run), Kill(t, h);
    RunAppend(threads, run, e);
    BeginSame(s, e, h);
    BeginOwnFinal(s, e, h);
    StaysEnding(threads, run + [e], rest, t, h);
  }

  // ------------------------------------------------------------ how long it lasts

  /** Instructions a thread has still to execute, at most, before its operation is over. */
  function Left(pc: Pc): nat {
    match pc
    case Idle => 0
    case Adding(_, _, _) => 1
    case Clearing(_, _) => 1
    case Leaving(_) => 1
    case Storing(_, _, _) => 2
    case Deleting(_, _) => 3
    case Releasing(_, _) => 4
  }

  function Continues(rest: seq<Event>, t: nat): nat {
    if rest == [] then 0
    else Continues(rest[..|rest| - 1], t) + (if rest[|rest| - 1] == Continue(t) then 1 else 0)
  }

  lemma ResumeShortens(s: State, t: nat)
    requires CanContinue(s, t)
    ensures t < |Resume(s, t).pcs| && Left(Resume(s, t).pcs[t]) < Left(s.pcs[t])
  {
  }

  lemma {:induction false} LeftNext(s: State, e: Event, t: nat)
    requires Inv(s) && t < |s.pcs| && (e.t != t || e.Continue?)
    ensures |Next(s, e).pcs| == |s.pcs|
    ensures e.t != t ==> Next(s, e).pcs[t] == s.pcs[t]
    ensures e.t == t ==> Left(Next(s, e).pcs[t]) < Left(s.pcs[t]) || (s.pcs[t].Idle? && Next(s, e) == s)
  {
    if e.t == t {
      if !s.pcs[t].Idle? {
        AlwaysContinues(s, t);
        ResumeShortens(s, t);
        ResumeLength(s, t);
      }
    } else if e.Continue? {
      if CanContinue(s, e.t) {
        ResumePcs(s, e.t, t);
      }
    } else if CanBegin(s, e) {
      BeginPcs(s, e, t);
    }
  }

  lemma ResumeLength(s: State, t: nat)
    requires CanContinue(s, t)
    ensures |Resume(s, t).pcs| == |s.pcs|
  {
  }

  /** One event brings a thread nearer to its end if the event is its own, and leaves it where it is otherwise. */
  lemma {:induction false} LeftStep(s: State, e: Event, t: nat, left: nat, done: nat)
    requires Inv(s) && t < |s.pcs| && (e.t != t || e.Continue?)
    requires Left(s.pcs[t]) + done <= left || s.pcs[t].Idle?
    ensures |Next(s, e).pcs| == |s.pcs|
    ensures
      var now := Next(s, e).pcs[t];
      Left(now) + done + (if e == Continue(t) then 1 else 0) <= left || now.Idle?
  {
    LeftNext(s, e, t);
  }

  lemma {:induction false} LeftRun(threads: nat, run: seq<Event>, rest: seq<Event>, t: nat)
    requires t < |Run(threads, run).pcs| && BeginsNothing(rest, t)
    ensures |Run(threads, run + rest).pcs| == |Run(threads, run).pcs|
    ensures
      var now := Run(threads, run + rest).pcs[t];
      Left(now) + Continues(rest, t) <= Left(Run(threads, run).pcs[t]) || now.Idle?
    decreases |rest|
  {
    if rest == [] {
      assert run + rest == run;
    } else {
      var rest', e := rest[..|rest| - 1], rest[|rest| - 1];
      LeftRun(threads, run, rest', t);
      assert run + rest == (run + rest') + [e];
      RunAppend(threads, run + rest', e);
      InvRun(threads, run + rest');
      LeftStep(Run(threads, run + rest'), e, t, Left(Run(threads, run).pcs[t]), Continues(rest', t));
    }
  }

  /** Whatever the other threads do, an operation is over after at most four more instructions of its own thread. */
  lemma {:induction false} OperationsAreShort(threads: nat, run: seq<Event>, rest: seq<Event>, t: nat)
    requires t < |Run(threads, run).pcs| && BeginsNothing(rest, t) && Continues(rest, t) >= 4
    ensures IsIdle(Run(threads, run + rest), t)
  {
    LeftRun(threads, run, rest, t);
  }
}
