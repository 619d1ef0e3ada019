/** What every interleaving of handle operations with the collector keeps. */
module HandleInvariant {
  import opened Common
  import opened HandleProtocol

  /** The collector is working on handle `h`. */
  predicate Busy(gc: Gc, h: nat) { (gc.Visiting? || gc.GcFreeing? || gc.Nulling? || gc.GcUnlinking?) && gc.h == h }

  /** No live node names `h`. */
  ghost predicate Unowned(s: State, h: nat) { forall x :: x in s.live ==> s.live[x] != h }

  /** `x` is the only live node that names `h`. */
  ghost predicate Owns(s: State, h: nat, x: Node) {
    x in s.live && s.live[x] == h && forall y :: y in s.live && s.live[y] == h ==> y == x
  }

  /** The handle points to an object and its node is the one live node that names it, in the object's region. */
  ghost predicate Linked(s: State, h: nat)
    requires h in s.cells
  {
    var c := s.cells[h];
    IsValid(c.raw) && c.node.Some? && c.node.value.heap == c.raw.heap && Owns(s, h, c.node.value)
  }

  /** The handle is null or the sentinel, has no node and is named by none. */
  ghost predicate Empty(s: State, h: nat)
    requires h in s.cells
  {
    !IsValid(s.cells[h].raw) && s.cells[h].node.None? && Unowned(s, h)
  }

  /** What holds of a handle while the collector is not working on it. */
  ghost predicate ShapeAlone(s: State, h: nat)
    requires h in s.cells
  {
    var c := s.cells[h];
    match c.pc
    case Idle => Linked(s, h) || Empty(s, h)
    case Locking(_) => Linked(s, h) || Empty(s, h)
    case Rechecking(_) => Linked(s, h) || Empty(s, h)
    case Keeping(ptr) => Linked(s, h) && IsValid(ptr) && ptr.heap == c.raw.heap
    case Freeing(_) => Linked(s, h)
    case Unlinking(_) => Unowned(s, h) && c.node.Some?
    case Unlocking(_) => Unowned(s, h) && c.node.None?
    case Writing(_) => Unowned(s, h) && c.node.None?
    case LockingNew(ptr) => Unowned(s, h) && c.node.None? && c.raw == ptr && IsValid(ptr)
    case Allocating(ptr) => Unowned(s, h) && c.node.None? && c.raw == ptr && IsValid(ptr)
    case Linking(ptr, x) => Owns(s, h, x) && c.node.None? && c.raw == ptr && IsValid(ptr) && x.heap == ptr.heap
    case Finishing => Linked(s, h)
    case Gone => Unowned(s, h) && c.node.None?
  }

  /** What holds of the handle that the collector is working on. Its mutator is outside the lock; it may have begun
      an assignment, or finished one of an invalid pointer, between the collector's two writes. */
  ghost predicate ShapeBusy(s: State, h: nat)
    requires h in s.cells
  {
    var c := s.cells[h];
    match s.gc
    case Visiting(_) => Linked(s, h) && (c.pc.Idle? || c.pc.Locking?)
    case GcFreeing(_) => Linked(s, h) && (c.pc.Idle? || c.pc.Locking?)
    case Nulling(_) => IsValid(c.raw) && c.node.Some? && Unowned(s, h) && (c.pc.Idle? || c.pc.Locking?)
    case GcUnlinking(_) =>
      && c.node.Some? && Unowned(s, h)
      && (|| ((c.pc.Idle? || c.pc.Locking?) && !IsValid(c.raw))
          || c.pc.Writing?
          || (c.pc.LockingNew? && c.raw == c.pc.ptr && IsValid(c.raw)))
    case _ => true
  }

  ghost predicate CellInv(s: State, h: nat)
    requires h in s.cells
  {
    var c := s.cells[h];
    && (if Busy(s.gc, h) then ShapeBusy(s, h) else ShapeAlone(s, h))
    && (HoldsLock(c.pc) <==> s.lock == Mutator(h))
    && c.allocs + c.moved == c.frees + (if Unowned(s, h) then 0 else 1)
    && c.ops != []
  }

  /** The collector works under the lock. */
  predicate LockInv(s: State) { s.lock.Collector? <==> !s.gc.Sleeping? }

  ghost predicate Inv(s: State) {
    && (forall x :: x in s.live ==> s.live[x] in s.cells)
    && (s.lock.Mutator? ==> s.lock.h in s.cells)
    && LockInv(s)
    && (!s.gc.Sleeping? && !s.gc.Holding? ==> s.gc.h in s.cells)
    && (forall h :: h in s.cells ==> CellInv(s, h))
  }

  /** A step that changes only handle `h`, nodes that name `h` and the lock keeps the invariant of the others. */
  lemma OthersKeep(s: State, t: State, h: nat, k: nat)
    requires Inv(s) && k in s.cells && k != h && k in t.cells && t.cells[k] == s.cells[k]
    requires forall x :: x in s.live && s.live[x] == k <==> x in t.live && t.live[x] == k
    requires Busy(t.gc, k) <==> Busy(s.gc, k)
    requires Busy(s.gc, k) ==> t.gc == s.gc
    requires t.lock == Mutator(k) <==> s.lock == Mutator(k)
    ensures CellInv(t, k)
  {
    assert CellInv(s, k);
    assert Unowned(t, k) <==> Unowned(s, k);
  }

  /** A step of handle `h` that changes no region. */
  lemma FieldStepKeeps(s: State, t: State, h: nat)
    requires Inv(s) && h in s.cells && h in t.cells && t.live == s.live && t.gc == s.gc
    requires t.cells == s.cells[h := t.cells[h]]
    requires t.lock == s.lock || (s.lock.Free? && t.lock == Mutator(h)) || (s.lock == Mutator(h) && t.lock.Free?)
    requires CellInv(t, h)
    ensures Inv(t)
  {
    forall k | k in t.cells ensures CellInv(t, k) {
      if k != h { OthersKeep(s, t, h, k); }
    }
  }

  /** A step of handle `h` that frees or allocates a node that names it. */
  lemma RegionStepKeeps(s: State, t: State, h: nat)
    requires Inv(s) && h in t.cells && t.gc == s.gc && t.lock == s.lock
    requires t.cells == s.cells[h := t.cells[h]]
    requires forall x :: x in t.live ==> t.live[x] == h || (x in s.live && t.live[x] == s.live[x])
    requires forall x :: x in s.live && s.live[x] != h ==> x in t.live && t.live[x] == s.live[x]
    requires CellInv(t, h)
    ensures Inv(t)
  {
    forall k | k in t.cells ensures CellInv(t, k) {
      if k != h { OthersKeep(s, t, h, k); }
    }
  }

  predicate FieldAction(a: Action) {
    a.BeginAssign? || a.BeginDestroy? || a.TakeLock? || a.Recheck? || a.Keep? || a.Unlock? || a.Write? || a.Unlink? || a.Link?
  }

  /** Steps outside the lock. */
  lemma OwnOutsideStep(s: State, a: Action)
    requires LockInv(s) && (a.BeginAssign? || a.BeginDestroy? || a.Write?) && Enabled(s, a)
    requires a.h in s.cells && CellInv(s, a.h)
    ensures CellInv(Apply(s, a), a.h)
  {
    assert Unowned(Apply(s, a), a.h) <==> Unowned(s, a.h);
  }

  lemma OwnLockStep(s: State, a: Action)
    requires LockInv(s) && (a.TakeLock? || a.Unlock?) && Enabled(s, a)
    requires a.h in s.cells && CellInv(s, a.h)
    ensures CellInv(Apply(s, a), a.h)
  {
    assert Unowned(Apply(s, a), a.h) <==> Unowned(s, a.h);
  }

  lemma OwnInsideStep(s: State, a: Action)
    requires LockInv(s) && (a.Recheck? || a.Keep? || a.Unlink? || a.Link?) && Enabled(s, a)
    requires a.h in s.cells && CellInv(s, a.h)
    ensures CellInv(Apply(s, a), a.h)
  {
    assert Unowned(Apply(s, a), a.h) <==> Unowned(s, a.h);
  }

  lemma OwnFieldStep(s: State, a: Action)
    requires Inv(s) && FieldAction(a) && Enabled(s, a)
    ensures CellInv(Apply(s, a), a.h)
  {
    assert CellInv(s, a.h);
    hide Inv, CellInv, Enabled, Apply;
    if a.BeginAssign? || a.BeginDestroy? || a.Write? { OwnOutsideStep(s, a); }
    else if a.TakeLock? || a.Unlock? { OwnLockStep(s, a); }
    else { OwnInsideStep(s, a); }
  }

  lemma FieldStep(s: State, a: Action)
    requires Inv(s) && FieldAction(a) && Enabled(s, a)
    ensures Inv(Apply(s, a))
  {
    OwnFieldStep(s, a);
    assert a.h in s.cells && CellInv(s, a.h);
    FieldFrame(s, a);
    hide *;
    FieldStepKeeps(s, Apply(s, a), a.h);
  }

  lemma FieldFrame(s: State, a: Action)
    requires LockInv(s) && FieldAction(a) && Enabled(s, a) && a.h in s.cells && CellInv(s, a.h)
    ensures var t := Apply(s, a);
            && a.h in t.cells && t.live == s.live && t.gc == s.gc && t.cells == s.cells[a.h := t.cells[a.h]]
            && (|| t.lock == s.lock || (s.lock.Free? && t.lock == Mutator(a.h))
                || (s.lock == Mutator(a.h) && t.lock.Free?))
  {
    HoldsOwnLock(s, a.h);
    hide CellInv;
  }

  lemma HoldsOwnLock(s: State, h: nat)
    requires h in s.cells && CellInv(s, h)
    ensures HoldsLock(s.cells[h].pc) <==> s.lock == Mutator(h)
  {
  }

  lemma FreeOwnStep(s: State, h: nat)
    requires Inv(s) && Enabled(s, FreeOwn(h))
    ensures Inv(Apply(s, FreeOwn(h)))
  {
    var t := Apply(s, FreeOwn(h));
    assert CellInv(s, h);
    assert Unowned(t, h);
    RegionStepKeeps(s, t, h);
  }

  lemma AllocateStep(s: State, h: nat, slot: nat)
    requires Inv(s) && Enabled(s, Allocate(h, slot))
    ensures Inv(Apply(s, Allocate(h, slot)))
  {
    var t := Apply(s, Allocate(h, slot));
    assert CellInv(s, h);
    assert Owns(t, h, t.cells[h].pc.made);
    RegionStepKeeps(s, t, h);
  }

  lemma ConstructStep(s: State, h: nat, ptr: Ptr)
    requires Inv(s) && Enabled(s, Construct(h, ptr))
    ensures Inv(Apply(s, Construct(h, ptr)))
  {
    var t := Apply(s, Construct(h, ptr));
    assert Unowned(t, h);
    RegionStepKeeps(s, t, h);
  }

  lemma SafeAssignStep(s: State, h: nat, ptr: Ptr, slot: nat)
    requires Inv(s) && Enabled(s, SafeAssign(h, ptr, slot))
    ensures Inv(Apply(s, SafeAssign(h, ptr, slot)))
  {
    var t := AssignSafe(s, h, ptr, slot);
    assert CellInv(s, h);
    SafeAssignOwn(s, h, ptr, slot);
    SafeAssignFrame(s, h, ptr, slot);
    hide CellInv, Linked, Empty;
    RegionStepKeeps(s, t, h);
  }

  lemma SafeAssignFrame(s: State, h: nat, ptr: Ptr, slot: nat)
    requires h in s.cells && CellInv(s, h) && LockInv(s) && Enabled(s, SafeAssign(h, ptr, slot))
    ensures var t := AssignSafe(s, h, ptr, slot);
            && h in t.cells && t.cells == s.cells[h := t.cells[h]]
            && (forall x :: x in t.live ==> t.live[x] == h || (x in s.live && t.live[x] == s.live[x]))
            && (forall x :: x in s.live && s.live[x] != h ==> x in t.live && t.live[x] == s.live[x])
  {
  }

  /** A locked assignment leaves the value assigned and a single live node exactly when the value is an object. */
  lemma SafeAssignOwn(s: State, h: nat, ptr: Ptr, slot: nat)
    requires Inv(s) && Enabled(s, SafeAssign(h, ptr, slot))
    ensures var t := AssignSafe(s, h, ptr, slot);
            && h in t.cells && CellInv(t, h) && t.cells[h].raw == ptr
            && (if IsValid(ptr) then Linked(t, h) else Empty(t, h))
  {
    assert CellInv(s, h);
    var c, t := s.cells[h], AssignSafe(s, h, ptr, slot);
    if IsValid(ptr) {
      if IsValid(c.raw) && c.raw.heap == ptr.heap {
        assert Owns(t, h, c.node.value);
      } else {
        assert Owns(t, h, Node(ptr.heap, slot));
      }
    } else {
      assert Unowned(t, h);
    }
  }

  /** A move into a cleared handle: the handle takes over value, node and ownership, and nothing is left behind. */
  lemma MoveInOwn(s: State, h: nat, from: nat)
    requires Inv(s) && Enabled(s, MoveIn(h, from))
    ensures var t := MoveFields(s, h, from);
            && t.cells.Keys == s.cells.Keys && t.cells[h].raw == s.cells[from].raw
            && CellInv(t, h) && CellInv(t, from)
            && (if IsValid(s.cells[from].raw) then Linked(t, h) else Empty(t, h)) && Empty(t, from)
  {
    assert CellInv(s, h) && CellInv(s, from);
    var t := MoveFields(s, h, from);
    if IsValid(s.cells[from].raw) {
      assert Owns(t, h, t.cells[h].node.value);
      assert Unowned(t, from);
    } else {
      assert t.live == s.live;
      assert Unowned(t, h) && Unowned(t, from);
    }
  }

  lemma MoveInStep(s: State, h: nat, from: nat)
    requires Inv(s) && Enabled(s, MoveIn(h, from))
    ensures Inv(Apply(s, MoveIn(h, from)))
  {
    var t := MoveFields(s, h, from);
    MoveInOwn(s, h, from);
    MoveInFrame(s, h, from);
    forall k | k in t.cells ensures CellInv(t, k) {
      hide CellInv, Linked, Empty, MoveFields;
      if k != h && k != from { OthersKeep(s, t, h, k); }
    }
  }

  lemma MoveInFrame(s: State, h: nat, from: nat)
    requires Inv(s) && Enabled(s, MoveIn(h, from))
    ensures var t := MoveFields(s, h, from);
            && t.gc == s.gc && t.lock == s.lock && t.cells.Keys == s.cells.Keys
            && (forall k :: k in s.cells && k != h && k != from ==> t.cells[k] == s.cells[k])
            && t.live.Keys == s.live.Keys
            && (forall x :: x in s.live ==> t.live[x] == s.live[x] || (s.live[x] == from && t.live[x] == h))
  {
    assert CellInv(s, from);
  }

  lemma MutatorStep(s: State, a: Action)
    requires Inv(s) && !GcAction(a) && Enabled(s, a)
    ensures Inv(Apply(s, a))
  {
    hide Inv;
    if FieldAction(a) {
      FieldStep(s, a);
    } else if a.FreeOwn? {
      FreeOwnStep(s, a.h);
    } else if a.Allocate? {
      AllocateStep(s, a.h, a.slot);
    } else if a.Construct? {
      ConstructStep(s, a.h, a.ptr);
    } else if a.MoveIn? {
      MoveInStep(s, a.h, a.from);
    } else {
      SafeAssignStep(s, a.h, a.ptr, a.slot);
    }
  }

  // ---------------------------------------------------------------- the collector

  lemma GcOthers(s: State, t: State, h: nat)
    requires Inv(s) && h in s.cells && h in t.cells && t.lock == s.lock
    requires t.cells == s.cells[h := t.cells[h]]
    requires forall x :: x in t.live ==> x in s.live && t.live[x] == s.live[x]
    requires forall x :: x in s.live && s.live[x] != h ==> x in t.live && t.live[x] == s.live[x]
    requires forall k :: k != h ==> !Busy(t.gc, k) && !Busy(s.gc, k)
    requires s.lock.Collector? && (t.gc.Holding? || Busy(t.gc, h))
    requires CellInv(t, h)
    ensures Inv(t)
  {
    forall k | k in t.cells ensures CellInv(t, k) {
      if k != h { OthersKeep(s, t, h, k); }
    }
  }

  lemma GcLockStep(s: State, a: Action)
    requires Inv(s) && (a.GcLock? || a.GcUnlock?) && Enabled(s, a)
    ensures Inv(Apply(s, a))
  {
    var t := Apply(s, a);
    forall k | k in t.cells ensures CellInv(t, k) {
      assert CellInv(s, k);
      assert Unowned(t, k) <==> Unowned(s, k);
    }
  }

  lemma GcReadStep(s: State, a: Action)
    requires Inv(s) && (a.GcVisit? || a.GcCheck?) && Enabled(s, a)
    ensures Inv(Apply(s, a))
  {
    var t := Apply(s, a);
    var h := if a.GcVisit? then a.h else s.gc.h;
    assert CellInv(s, h);
    assert Unowned(t, h) <==> Unowned(s, h);
    if a.GcVisit? {
      var x :| x in s.live && s.live[x] == h;
      assert !Unowned(s, h);
    }
    GcOthers(s, t, h);
  }

  lemma GcFreeStep(s: State)
    requires Inv(s) && Enabled(s, GcFree)
    ensures Inv(Apply(s, GcFree))
  {
    var h, t := s.gc.h, Apply(s, GcFree);
    assert CellInv(s, h);
    assert Unowned(t, h);
    GcOthers(s, t, h);
  }

  lemma GcWriteStep(s: State, a: Action)
    requires Inv(s) && (a.GcNull? || a.GcUnlink?) && Enabled(s, a)
    ensures Inv(Apply(s, a))
  {
    var h, t := s.gc.h, Apply(s, a);
    assert CellInv(s, h);
    assert Unowned(t, h) <==> Unowned(s, h);
    GcOthers(s, t, h);
  }

  lemma InvStep(s: State, a: Action)
    requires Inv(s) && Enabled(s, a)
    ensures Inv(Apply(s, a))
  {
    hide Inv;
    if !GcAction(a) {
      MutatorStep(s, a);
    } else if a.GcLock? || a.GcUnlock? {
      GcLockStep(s, a);
    } else if a.GcVisit? || a.GcCheck? {
      GcReadStep(s, a);
    } else if a.GcFree? {
      GcFreeStep(s);
    } else {
      GcWriteStep(s, a);
    }
  }

  lemma {:induction false} InvPath(s: State, actions: seq<Action>, t: State)
    requires Inv(s) && Path(s, actions, t)
    ensures Inv(t)
    decreases |actions|
  {
    if actions != [] {
      InvStep(s, actions[0]);
      InvPath(Apply(s, actions[0]), actions[1..], t);
    }
  }

  lemma ReachableInv(s: State)
    requires Reachable(s)
    ensures Inv(s)
  {
    var start: State, actions: seq<Action> :| Init(start) && Path(start, actions, s);
    InvPath(start, actions, s);
  }
}
