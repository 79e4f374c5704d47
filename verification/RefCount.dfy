/**
  Reference counts.  The counts the code keeps step by step are compared with an independent
  definition: who refers to an object, namely its creator and the live RefPtr handles.
 */
module RefCounts {

  /** The pointer inside a handle. */
  datatype Ptr = Null | To(obj: nat)

  /** creators: objects whose creator has not released its own reference.  target: live handles. */
  datatype Owners = Owners(creators: set<nat>, target: map<nat, Ptr>)

  function Handles(own: Owners, o: nat): set<nat> {
    set h | h in own.target && own.target[h] == To(o)
  }

  /** Number of references to an object. */
  function References(own: Owners, o: nat): nat {
    |Handles(own, o)| + (if o in own.creators then 1 else 0)
  }

  /** Exactly the referenced objects exist, each with its number of references as count. */
  ghost predicate Exact(count: map<nat, nat>, own: Owners) {
    forall o: nat :: (o in count <==> References(own, o) > 0) && (o in count ==> count[o] == References(own, o))
  }

  function TargetOf(own: Owners, h: nat): Ptr {
    if h in own.target then own.target[h] else Null
  }

  function Retarget(own: Owners, h: nat, p: Ptr): Owners {
    own.(target := own.target[h := p])
  }

  function Drop(own: Owners, h: nat): Owners {
    own.(target := own.target - {h})
  }

  function One(b: bool): nat {
    if b then 1 else 0
  }

  lemma RetargetHandles(own: Owners, h: nat, p: Ptr, o: nat)
    ensures Handles(Retarget(own, h, p), o) - {h} == Handles(own, o) - {h}
    ensures h in Handles(Retarget(own, h, p), o) <==> p == To(o)
    ensures h in Handles(own, o) <==> TargetOf(own, h) == To(o)
  {
  }

  lemma RetargetCounts(own: Owners, h: nat, p: Ptr, o: nat)
    ensures References(Retarget(own, h, p), o) + One(TargetOf(own, h) == To(o)) == References(own, o) + One(p == To(o))
  {
    RetargetHandles(own, h, p, o);
    Without(Handles(own, o), h);
    Without(Handles(Retarget(own, h, p), o), h);
  }

  lemma Without(s: set<nat>, h: nat)
    ensures |s| == |s - {h}| + One(h in s)
  {
    if h !in s {
      assert s - {h} == s;
    }
  }

  lemma DropCounts(own: Owners, h: nat, o: nat)
    ensures References(Drop(own, h), o) + One(TargetOf(own, h) == To(o)) == References(own, o)
  {
    assert Handles(Drop(own, h), o) == Handles(own, o) - {h};
    assert h in Handles(own, o) <==> TargetOf(own, h) == To(o);
    Without(Handles(own, o), h);
  }

  /** The count after Release; the object is deleted when its count was 1. */
  function Released(count: map<nat, nat>, o: nat): map<nat, nat>
    requires o in count && count[o] >= 1
  {
    if count[o] == 1 then count - {o} else count[o := count[o] - 1]
  }

  lemma ReferencedExists(count: map<nat, nat>, own: Owners, h: nat)
    requires Exact(count, own) && TargetOf(own, h).To?
    ensures var o := TargetOf(own, h).obj; o in count && count[o] >= 1
  {
    assert h in Handles(own, TargetOf(own, h).obj);
  }

  /** Clearing a handle and releasing its object keeps the counts exact. */
  lemma ReleaseKeeps(count: map<nat, nat>, own: Owners, own': Owners, h: nat)
    requires Exact(count, own) && TargetOf(own, h).To?
    requires own' == Retarget(own, h, Null) || own' == Drop(own, h)
    ensures TargetOf(own, h).obj in count && count[TargetOf(own, h).obj] >= 1
    ensures Exact(Released(count, TargetOf(own, h).obj), own')
  {
    ReferencedExists(count, own, h);
    var count' := Released(count, TargetOf(own, h).obj);
    forall o: nat
      ensures (o in count' <==> References(own', o) > 0) && (o in count' ==> count'[o] == References(own', o))
    {
      RetargetCounts(own, h, Null, o);
      DropCounts(own, h, o);
    }
  }

  /** Pointing an empty handle at an existing object and adding a reference keeps the counts exact. */
  lemma AddKeeps(count: map<nat, nat>, own: Owners, h: nat, x: nat)
    requires Exact(count, own) && TargetOf(own, h) == Null && x in count
    ensures Exact(count[x := count[x] + 1], Retarget(own, h, To(x)))
  {
    var count', own' := count[x := count[x] + 1], Retarget(own, h, To(x));
    forall o: nat
      ensures (o in count' <==> References(own', o) > 0) && (o in count' ==> count'[o] == References(own', o))
    {
      RetargetCounts(own, h, To(x), o);
    }
  }

  lemma ExactSame(count: map<nat, nat>, own: Owners, own': Owners)
    requires Exact(count, own) && forall o: nat :: References(own', o) == References(own, o)
    ensures Exact(count, own')
  {
  }

  /** Nothing is referenced twice or lost when an empty handle takes over another's pointer. */
  lemma TransferKeeps(count: map<nat, nat>, own: Owners, h: nat, v: nat)
    requires Exact(count, own) && h != v && TargetOf(own, h) == Null && v in own.target
    ensures Exact(count, Retarget(Retarget(own, h, own.target[v]), v, Null))
  {
    var mid := Retarget(own, h, own.target[v]);
    forall o: nat
      ensures References(Retarget(mid, v, Null), o) == References(own, o)
    {
      RetargetCounts(own, h, own.target[v], o);
      RetargetCounts(mid, v, Null, o);
    }
    ExactSame(count, own, Retarget(mid, v, Null));
  }

  lemma NullKeeps(count: map<nat, nat>, own: Owners, own': Owners, h: nat)
    requires Exact(count, own) && TargetOf(own, h) == Null
    requires own' == Retarget(own, h, Null) || own' == Drop(own, h)
    ensures Exact(count, own')
  {
    forall o: nat
      ensures References(own', o) == References(own, o)
    {
      RetargetCounts(own, h, Null, o);
      DropCounts(own, h, o);
    }
    ExactSame(count, own, own');
  }

  /**
    All counted objects and all handles.  Count holds the objects that exist with their
    m_RefCount; Target holds the live handles with their m_Ptr.
   */
  class RefHeap {
    var Count: map<nat, nat>
    var Target: map<nat, Ptr>
    ghost var Creators: set<nat>

    ghost function Own(): Owners
      reads this
    {
      Owners(Creators, Target)
    }

    ghost predicate Valid()
      reads this
    {
      Exact(Count, Own())
    }

    constructor ()
      ensures Valid() && Own() == Owners({}, map[])
    {
      Count, Target, Creators := map[], map[], {};
    }

    method AddRef(o: nat) returns (count: nat)
      requires o in Count
      modifies this`Count
      ensures Count == old(Count)[o := old(Count)[o] + 1] && count == Count[o]
    {
      Count := Count[o := Count[o] + 1];
      return Count[o];
    }

    method Release(o: nat)
      requires o in Count && Count[o] >= 1
      modifies this`Count
      ensures Count == Released(old(Count), o)
    {
      var before := Count[o];
      Count := Count[o := before - 1];
      if before == 1 {
        Count := Count - {o};
      }
      assert Count == Released(old(Count), o);
    }

    /** new: the object starts with its creator's reference. */
    method New(o: nat)
      requires Valid() && o !in Count
      modifies this
      ensures Valid() && Own() == Owners(old(Creators) + {o}, old(Target))
    {
      ghost var own := Own();
      Count := Count[o := 1];
      Creators := Creators + {o};
      assert forall x: nat :: Handles(Own(), x) == Handles(own, x);
    }

    /** The creator gives up its own reference by a direct Release. */
    method ReleaseCreator(o: nat)
      requires Valid() && o in Creators
      modifies this
      ensures Valid() && Own() == Owners(old(Creators) - {o}, old(Target))
    {
      ghost var own := Own();
      assert References(own, o) >= 1;
      Release(o);
      Creators := Creators - {o};
      assert forall x: nat :: Handles(Own(), x) == Handles(own, x);
    }

    method ConstructNull(h: nat)
      requires Valid() && h !in Target
      modifies this`Target
      ensures Valid() && Own() == Retarget(old(Own()), h, Null)
    {
      NullKeeps(Count, Own(), Retarget(Own(), h, Null), h);
      Target := Target[h := Null];
    }

    /** RefPtr(T*): the object must still exist. */
    method ConstructRaw(h: nat, p: Ptr)
      requires Valid() && h !in Target && (p.To? ==> p.obj in Count)
      modifies this`Target, this`Count
      ensures Valid() && Own() == Retarget(old(Own()), h, p)
    {
      if p.To? {
        AddKeeps(Count, Own(), h, p.obj);
      } else {
        NullKeeps(Count, Own(), Retarget(Own(), h, Null), h);
      }
      Target := Target[h := p];
      if Target[h].To? {
        var _ := AddRef(Target[h].obj);
      }
    }

    method CopyConstruct(h: nat, v: nat)
      requires Valid() && h !in Target && v in Target
      modifies this`Target, this`Count
      ensures Valid() && Own() == Retarget(old(Own()), h, old(Target)[v])
    {
      if Target[v].To? {
        ReferencedExists(Count, Own(), v);
      }
      ConstructRaw(h, Target[v]);
    }

    method MoveConstruct(h: nat, v: nat)
      requires Valid() && h !in Target && v in Target
      modifies this`Target
      ensures Valid() && Own() == Retarget(Retarget(old(Own()), h, old(Target)[v]), v, Null)
    {
      TransferKeeps(Count, Own(), h, v);
      Target := Target[h := Target[v]];
      Target := Target[v := Null];
    }

    /** The test and Release at the start of the destructor and of both assignments. */
    method ReleaseTarget(h: nat)
      requires Valid() && h in Target
      modifies this`Count
      ensures Exact(Count, Retarget(Own(), h, Null)) && Exact(Count, Drop(Own(), h))
    {
      if Target[h].To? {
        ReferencedExists(Count, Own(), h);
        ReleaseKeeps(Count, Own(), Retarget(Own(), h, Null), h);
        ReleaseKeeps(Count, Own(), Drop(Own(), h), h);
        Release(Target[h].obj);
      } else {
        NullKeeps(Count, Own(), Retarget(Own(), h, Null), h);
        NullKeeps(Count, Own(), Drop(Own(), h), h);
      }
    }

    method Destroy(h: nat)
      requires Valid() && h in Target
      modifies this`Target, this`Count
      ensures Valid() && Own() == Drop(old(Own()), h)
    {
      ReleaseTarget(h);
      Target := Target - {h};
    }

    method CopyAssign(h: nat, v: nat)
      requires Valid() && h in Target && v in Target
      modifies this`Target, this`Count
      ensures Valid() && Own() == Retarget(old(Own()), h, old(Target)[v])
    {
      if h != v {
        ReleaseTarget(h);
        ghost var cleared := Retarget(Own(), h, Null);
        Target := Target[h := Target[v]];
        assert Own() == Retarget(cleared, h, Target[h]);
        if Target[h].To? {
          ReferencedExists(Count, cleared, v);
          AddKeeps(Count, cleared, h, Target[h].obj);
          var _ := AddRef(Target[h].obj);
        }
      } else {
        assert Retarget(Own(), h, Target[v]) == Own();
      }
    }

    method MoveAssign(h: nat, v: nat)
      requires Valid() && h in Target && v in Target
      modifies this`Target, this`Count
      ensures Valid()
      ensures Own() == if h == v then old(Own()) else Retarget(Retarget(old(Own()), h, old(Target)[v]), v, Null)
    {
      if h != v {
        ghost var own := Own();
        ReleaseTarget(h);
        ghost var cleared := Retarget(own, h, Null);
        TransferKeeps(Count, cleared, h, v);
        Target := Target[h := Target[v]];
        Target := Target[v := Null];
        assert Own() == Retarget(Retarget(cleared, h, own.target[v]), v, Null);
      }
    }
  }

  // ------------------------------------------------------------- whole runs

  /** What client code does with objects and handles. */
  datatype Op =
    | NewObject(o: nat)
    | DropCreator(o: nat)
    | MakeNull(h: nat)
    | MakeRaw(h: nat, o: nat)
    | MakeCopy(h: nat, v: nat)
    | MakeMove(h: nat, v: nat)
    | Kill(h: nat)
    | AssignCopy(h: nat, v: nat)
    | AssignMove(h: nat, v: nat)

  /** Handles are used while they live, raw pointers while their object is referenced. */
  predicate CanHappen(own: Owners, op: Op) {
    match op
    case NewObject(o) => References(own, o) == 0
    case DropCreator(o) => o in own.creators
    case MakeNull(h) => h !in own.target
    case MakeRaw(h, o) => h !in own.target && References(own, o) > 0
    case MakeCopy(h, v) => h !in own.target && v in own.target
    case MakeMove(h, v) => h !in own.target && v in own.target
    case Kill(h) => h in own.target
    case AssignCopy(h, v) => h in own.target && v in own.target
    case AssignMove(h, v) => h in own.target && v in own.target
  }

  /** Who refers to what after one operation; no counting involved. */
  function Step(own: Owners, op: Op): Owners {
    if !CanHappen(own, op) then own else
    match op
    case NewObject(o) => own.(creators := own.creators + {o})
    case DropCreator(o) => own.(creators := own.creators - {o})
    case MakeNull(h) => Retarget(own, h, Null)
    case MakeRaw(h, o) => Retarget(own, h, To(o))
    case MakeCopy(h, v) => Retarget(own, h, own.target[v])
    case MakeMove(h, v) => Retarget(Retarget(own, h, own.target[v]), v, Null)
    case Kill(h) => Drop(own, h)
    case AssignCopy(h, v) => Retarget(own, h, own.target[v])
    case AssignMove(h, v) => if h == v then own else Retarget(Retarget(own, h, own.target[v]), v, Null)
  }

  function Exec(own: Owners, run: seq<Op>): Owners
    decreases |run|
  {
    if run == [] then own else Step(Exec(own, run[..|run| - 1]), run[|run| - 1])
  }

  method DriveOne(heap: RefHeap, op: Op)
    requires heap.Valid() && CanHappen(heap.Own(), op)
    modifies heap
    ensures heap.Valid() && heap.Own() == Step(old(heap.Own()), op)
  {
    match op
    case NewObject(o) => heap.New(o);
    case DropCreator(o) => heap.ReleaseCreator(o);
    case MakeNull(h) => heap.ConstructNull(h);
    case MakeRaw(h, o) => heap.ConstructRaw(h, To(o));
    case MakeCopy(h, v) => heap.CopyConstruct(h, v);
    case MakeMove(h, v) => heap.MoveConstruct(h, v);
    case Kill(h) => heap.Destroy(h);
    case AssignCopy(h, v) => heap.CopyAssign(h, v);
    case AssignMove(h, v) => heap.MoveAssign(h, v);
  }

  /** Every operation of the run can happen when its turn comes. */
  ghost predicate AllHappen(own: Owners, run: seq<Op>)
    decreases |run|
  {
    run != [] ==> AllHappen(own, run[..|run| - 1]) && CanHappen(Exec(own, run[..|run| - 1]), run[|run| - 1])
  }

  lemma {:induction false} AllHappenPrefix(own: Owners, run: seq<Op>, k: nat)
    requires AllHappen(own, run) && k <= |run|
    ensures AllHappen(own, run[..k])
    decreases |run|
  {
    if k < |run| {
      AllHappenPrefix(own, run[..|run| - 1], k);
      assert run[..|run| - 1][..k] == run[..k];
    } else {
      assert run[..k] == run;
    }
  }

  lemma HappensNext(own: Owners, run: seq<Op>, k: nat)
    requires AllHappen(own, run) && k < |run|
    ensures CanHappen(Exec(own, run[..k]), run[k])
    ensures Exec(own, run[..k + 1]) == Step(Exec(own, run[..k]), run[k])
  {
    AllHappenPrefix(own, run, k + 1);
    assert run[..k + 1][..k] == run[..k];
  }

  /** After any run the counts kept by the code are exactly the references, and nothing referenced is gone. */
  method Drive(run: seq<Op>) returns (heap: RefHeap)
    requires AllHappen(Owners({}, map[]), run)
    ensures fresh(heap) && heap.Own() == Exec(Owners({}, map[]), run)
    ensures Exact(heap.Count, Exec(Owners({}, map[]), run))
    ensures forall h :: h in heap.Target && heap.Target[h].To? ==> heap.Target[h].obj in heap.Count
  {
    heap := new RefHeap();
    for k := 0 to |run|
      invariant fresh(heap) && heap.Valid() && heap.Own() == Exec(Owners({}, map[]), run[..k])
    {
      HappensNext(Owners({}, map[]), run, k);
      DriveOne(heap, run[k]);
    }
    assert run[..|run|] == run;
    forall h | h in heap.Target && heap.Target[h].To?
      ensures heap.Target[h].obj in heap.Count
    {
      ReferencedExists(heap.Count, heap.Own(), h);
    }
  }

  /** A raw pointer to an object stays good until the creator's own reference is released. */
  lemma {:induction false} CreatorKeepsAlive(own: Owners, run: seq<Op>, o: nat)
    requires o in own.creators && DropCreator(o) !in run
    ensures o in Exec(own, run).creators && References(Exec(own, run), o) > 0
    decreases |run|
  {
    if run != [] {
      CreatorKeepsAlive(own, run[..|run| - 1], o);
      assert run[|run| - 1] in run;
    }
  }

  /** The temporary handle of a thread creation leaves only the creator's reference behind. */
  lemma CreationLeavesOneReference(own: Owners, o: nat, h: nat)
    requires References(own, o) == 0 && h !in own.target
    ensures
      var made := Exec(own, [NewObject(o), MakeRaw(h, o), Kill(h)]);
      made == own.(creators := own.creators + {o}) && References(made, o) == 1
  {
    var run := [NewObject(o), MakeRaw(h, o), Kill(h)];
    assert run[..2] == [NewObject(o), MakeRaw(h, o)];
    assert run[..2][..1] == [NewObject(o)];
    assert run[..2][..1][..0] == [];
    var own1 := own.(creators := own.creators + {o});
    assert Exec(own, run[..2][..1]) == own1;
    assert Handles(own1, o) == Handles(own, o);
    assert Exec(own, run[..2]) == Retarget(own1, h, To(o));
    assert own1.target[h := To(o)] - {h} == own1.target;
  }
}
