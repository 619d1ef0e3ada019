/** What the operations of a handle and the collector's visit have done when they are over, whatever ran in between. */
module HandleRuns {
  import opened Common
  import opened HandleProtocol
  import opened HandleInvariant
  import opened HandleLaws

  // ---------------------------------------------------------------- construction

  /** A constructor, however its steps interleave: the handle ends idle with the given value, cleared at most once
      afterwards, and with its one node exactly when it points to an object. */
  lemma ConstructTakes(s: State, ptr: Ptr, actions: seq<Action>, t: State, h: nat)
    requires Reachable(s) && Enabled(s, Construct(h, ptr))
    requires NoneStartsOn(actions, h) && Path(Apply(s, Construct(h, ptr)), actions, t)
    requires h in t.cells && (t.cells[h].pc.Idle? || t.cells[h].pc.Gone?)
    ensures var c := t.cells[h];
            && c.pc.Idle?
            && ((c.ops == [Assigned(ptr)] && c.raw == ptr)
                || (c.ops == [Assigned(ptr), Cleared] && c.raw == Null && IsValid(ptr)))
    ensures !Busy(t.gc, h) ==> if IsValid(t.cells[h].raw) then Linked(t, h) else Empty(t, h)
  {
    ReachableInv(s);
    var a := Construct(h, ptr);
    InvStep(s, a);
    ConstructOps(s, h, ptr);
    WrittenPath(Apply(s, a), actions, t, h, ptr);
    assert CellInv(t, h);
  }

  lemma ConstructOps(s: State, h: nat, ptr: Ptr)
    requires Enabled(s, Construct(h, ptr))
    ensures var t := Apply(s, Construct(h, ptr)); h in t.cells && AfterWrite(t.cells[h].pc, ptr)
    ensures Apply(s, Construct(h, ptr)).cells[h].ops == [Assigned(ptr)]
    ensures Apply(s, Construct(h, ptr)).cells[h].raw == ptr
  {
  }

  /** A value that is already written takes effect only once more by a clear. */
  ghost predicate Written(c: Cell, ptr: Ptr) {
    && AfterWrite(c.pc, ptr)
    && ((c.ops == [Assigned(ptr)] && c.raw == ptr)
        || (c.ops == [Assigned(ptr), Cleared] && c.raw == Null && IsValid(ptr)))
  }

  lemma WrittenStep(s: State, a: Action, h: nat, ptr: Ptr)
    requires Inv(s) && h in s.cells && Written(s.cells[h], ptr) && Enabled(s, a) && !StartsOn(a, h)
    ensures h in Apply(s, a).cells && Written(Apply(s, a).cells[h], ptr)
  {
    assert CellInv(s, h);
    assert [Assigned(ptr)] + [Cleared] == [Assigned(ptr), Cleared];
    if !GcAction(a) && a.h != h {
      hide Apply;
      OtherCells(s, a, h);
    }
  }

  lemma {:induction false} WrittenPath(s: State, actions: seq<Action>, t: State, h: nat, ptr: Ptr)
    requires Inv(s) && h in s.cells && Written(s.cells[h], ptr)
    requires NoneStartsOn(actions, h) && Path(s, actions, t)
    ensures Inv(t) && h in t.cells && Written(t.cells[h], ptr)
    decreases |actions|
  {
    if actions != [] {
      assert !StartsOn(actions[0], h);
      WrittenStep(s, actions[0], h, ptr);
      InvStep(s, actions[0]);
      hide Inv, Apply, Enabled, Written;
      WrittenPath(Apply(s, actions[0]), actions[1..], t, h, ptr);
    }
  }

  // ---------------------------------------------------------------- destruction

  /** A handle whose destructor runs, against what it was when the destructor began: no value is ever written, nothing
      is allocated or moved, and the collector clears it at most once. */
  ghost predicate Dying(c: Cell, b: Cell) {
    && (|| c.pc == Locking(Destroy) || c.pc == Rechecking(Destroy) || c.pc == Freeing(Destroy)
        || c.pc == Unlinking(Destroy) || c.pc == Unlocking(Destroy) || c.pc.Gone?)
    && c.allocs == b.allocs && c.moved == b.moved
    && KeptOrCleared(c, b)
  }

  lemma DyingStep(s: State, a: Action, h: nat, b: Cell)
    requires Inv(s) && h in s.cells && Dying(s.cells[h], b) && Enabled(s, a) && !StartsOn(a, h)
    ensures h in Apply(s, a).cells && Dying(Apply(s, a).cells[h], b)
  {
    assert CellInv(s, h);
    if !GcAction(a) && a.h != h {
      hide Apply;
      OtherCells(s, a, h);
    }
  }

  lemma {:induction false} DyingPath(s: State, actions: seq<Action>, t: State, h: nat, b: Cell)
    requires Inv(s) && h in s.cells && Dying(s.cells[h], b)
    requires NoneStartsOn(actions, h) && Path(s, actions, t)
    ensures Inv(t) && h in t.cells && Dying(t.cells[h], b)
    decreases |actions|
  {
    if actions != [] {
      assert !StartsOn(actions[0], h);
      DyingStep(s, actions[0], h, b);
      InvStep(s, actions[0]);
      hide Inv, Apply, Enabled, Dying;
      DyingPath(Apply(s, actions[0]), actions[1..], t, h, b);
    }
  }

  /** How many live nodes name a handle: one or none. */
  ghost function Owned(s: State, h: nat): nat { if Unowned(s, h) then 0 else 1 }

  /** The destructor, however its steps interleave with the collector: the handle is never idle again, no value is
      assigned to it and the collector clears it at most once; when its mutator is in no operation any more it is gone
      for good, with no node, and the node that it still owned when the destructor began has been freed exactly once. */
  lemma DestructorDestroys(s: State, actions: seq<Action>, t: State, h: nat)
    requires Reachable(s) && Enabled(s, BeginDestroy(h))
    requires NoneStartsOn(actions, h) && Path(Apply(s, BeginDestroy(h)), actions, t)
    ensures h in t.cells && !t.cells[h].pc.Idle?
    ensures var c, b := t.cells[h], s.cells[h];
            || (c.ops == b.ops && c.raw == b.raw)
            || (c.ops == b.ops + [Cleared] && c.raw == Null && IsValid(b.raw))
    ensures StepsLeft(t.cells[h].pc) == 0 ==> t.cells[h].pc.Gone?
    ensures t.cells[h].pc.Gone? ==>
              && t.cells[h].node.None? && (forall x :: x in t.live ==> t.live[x] != h)
              && t.cells[h].frees == s.cells[h].frees + Owned(s, h) && t.cells[h].allocs == s.cells[h].allocs
  {
    ReachableInv(s);
    var a, b := BeginDestroy(h), s.cells[h];
    DyingBegins(s, h);
    InvStep(s, a);
    DyingPath(Apply(s, a), actions, t, h, b);
    Balance(s, h);
    Balance(t, h);
    hide Inv, Apply, Enabled, Path;
    if t.cells[h].pc.Gone? { GoneShape(t, h); }
  }

  lemma DyingBegins(s: State, h: nat)
    requires Enabled(s, BeginDestroy(h))
    ensures var t := Apply(s, BeginDestroy(h)); h in t.cells && Dying(t.cells[h], s.cells[h])
  {
  }

  /** The nodes allocated for a handle or moved to it are those freed and the one that it owns. */
  lemma Balance(s: State, h: nat)
    requires Inv(s) && h in s.cells
    ensures s.cells[h].allocs + s.cells[h].moved == s.cells[h].frees + Owned(s, h)
  {
    assert CellInv(s, h);
  }

  lemma GoneShape(s: State, h: nat)
    requires Inv(s) && h in s.cells && s.cells[h].pc.Gone?
    ensures s.cells[h].node.None? && Unowned(s, h)
  {
    assert CellInv(s, h);
  }

  /** The fast paths: without a node the destructor is over at once, and between values that are no objects an
      assignment is one write, in both cases without the lock, even while the collector holds it. */
  lemma FastPaths(s: State, h: nat, ptr: Ptr)
    requires h in s.cells && s.cells[h].pc.Idle?
    ensures s.cells[h].node.None? ==>
              var t := Apply(s, BeginDestroy(h));
              t.cells[h] == s.cells[h].(pc := Gone) && t.lock == s.lock && t.live == s.live
    ensures !IsValid(s.cells[h].raw) && !IsValid(ptr) ==>
              var t := Apply(s, BeginAssign(h, ptr));
              && Enabled(t, Write(h))
              && var u := Apply(t, Write(h));
                 && u.cells[h].pc.Idle? && u.cells[h].raw == ptr && u.cells[h].node == s.cells[h].node
                 && u.lock == s.lock && u.live == s.live
  {
  }

  // ---------------------------------------------------------------- the collector's visit

  function ValueAfter(op: Op): Ptr { if op.Cleared? then Null else op.ptr }

  /** The history of `c` is that of `b`, one clear, and then only writes of the handle's own mutator, the last of which
      is its value; and exactly one node of it has been freed. */
  ghost predicate ClearedOnce(c: Cell, b: Cell) {
    && |c.ops| > |b.ops| && c.ops[..|b.ops| + 1] == b.ops + [Cleared]
    && (forall k :: |b.ops| < k < |c.ops| ==> c.ops[k].Assigned?)
    && c.raw == ValueAfter(c.ops[|c.ops| - 1])
    && c.frees == b.frees + 1 && c.allocs == b.allocs && c.moved == b.moved
  }

  predicate NotTouched(c: Cell, b: Cell) {
    c.raw == b.raw && c.node == b.node && c.ops == b.ops && c.allocs == b.allocs && c.moved == b.moved
  }

  /** How far the visit of `h` has come, against what `h` was when it began. */
  ghost predicate Visit(s: State, h: nat, b: Cell)
    requires b.node.Some?
  {
    && h in s.cells && s.lock.Collector?
    && var c := s.cells[h];
       match s.gc
       case Visiting(k) => k == h && NotTouched(c, b) && c.frees == b.frees
       case GcFreeing(k) => k == h && NotTouched(c, b) && c.frees == b.frees
       case Nulling(k) => k == h && NotTouched(c, b) && c.frees == b.frees + 1 && b.node.value !in s.live
       case GcUnlinking(k) => k == h && ClearedOnce(c, b) && b.node.value !in s.live
       case Holding => ClearedOnce(c, b) && b.node.value !in s.live && c.node.None? && Unowned(s, h)
       case Sleeping => false
  }

  predicate StaysOn(a: Action) { !a.GcVisit? && !a.GcUnlock? }

  ghost predicate AllStayOn(actions: seq<Action>) { forall k :: 0 <= k < |actions| ==> StaysOn(actions[k]) }

  lemma VisitGcStep(s: State, a: Action, h: nat, b: Cell)
    requires Inv(s) && b.node.Some? && Visit(s, h, b) && Enabled(s, a) && GcAction(a) && StaysOn(a)
    ensures Visit(Apply(s, a), h, b)
  {
    assert CellInv(s, h);
    var t := Apply(s, a);
    assert a.GcFree? ==> t.live == s.live - {b.node.value};
    assert !a.GcFree? ==> t.live == s.live;
    assert a.GcUnlink? ==> Unowned(t, h);
  }

  lemma VisitOwnStep(s: State, a: Action, h: nat, b: Cell)
    requires Inv(s) && b.node.Some? && Visit(s, h, b) && Enabled(s, a) && !GcAction(a) && a.h == h
    ensures Visit(Apply(s, a), h, b)
  {
    assert CellInv(s, h);
    var t := Apply(s, a);
    assert t.live == s.live;
    assert Unowned(t, h) <==> Unowned(s, h);
  }

  lemma VisitOtherStep(s: State, a: Action, h: nat, b: Cell)
    requires Inv(s) && b.node.Some? && Visit(s, h, b) && Enabled(s, a) && !GcAction(a) && a.h != h
    ensures Visit(Apply(s, a), h, b)
  {
    if !a.Construct? { assert CellInv(s, a.h); }
    var t := Apply(s, a);
    assert t.live == s.live && t.cells[h] == s.cells[h];
    assert Unowned(t, h) <==> Unowned(s, h);
  }

  lemma {:induction false} VisitPath(s: State, actions: seq<Action>, t: State, h: nat, b: Cell)
    requires Inv(s) && b.node.Some? && Visit(s, h, b) && AllStayOn(actions) && Path(s, actions, t)
    ensures Inv(t) && Visit(t, h, b)
    decreases |actions|
  {
    if actions != [] {
      var a := actions[0];
      assert StaysOn(a);
      if GcAction(a) {
        VisitGcStep(s, a, h, b);
      } else if a.h == h {
        VisitOwnStep(s, a, h, b);
      } else {
        VisitOtherStep(s, a, h, b);
      }
      InvStep(s, a);
      hide Inv, Apply, Enabled, Visit, StaysOn;
      VisitPath(Apply(s, a), actions[1..], t, h, b);
    }
  }

  /** The collector's clear, whatever mutators do meanwhile: a visited handle always points to an object and has a node;
      when the visit is over, its history has exactly one new clear, followed at most by writes of its own mutator; the
      node that it had is gone from the regions and freed exactly once; the handle has no node; and without such a
      write it is null. */
  lemma GcVisitClears(s: State, h: nat, actions: seq<Action>, t: State)
    requires Reachable(s) && Enabled(s, GcVisit(h))
    requires AllStayOn(actions) && Path(Apply(s, GcVisit(h)), actions, t) && t.gc.Holding?
    ensures IsValid(s.cells[h].raw) && s.cells[h].node.Some? && h in t.cells
    ensures var b, c := s.cells[h], t.cells[h];
            && |c.ops| > |b.ops| && c.ops[..|b.ops| + 1] == b.ops + [Cleared]
            && (forall k :: |b.ops| < k < |c.ops| ==> c.ops[k].Assigned?)
            && b.node.value !in t.live && c.node.None? && (forall x :: x in t.live ==> t.live[x] != h)
            && c.frees == b.frees + 1 && c.allocs == b.allocs
            && (|c.ops| == |b.ops| + 1 ==> c.raw == Null)
  {
    ReachableInv(s);
    var a, b := GcVisit(h), s.cells[h];
    InvStep(s, a);
    VisitBegins(s, h);
    hide *;
    VisitPath(Apply(s, a), actions, t, h, b);
    VisitOver(t, h, b);
  }

  lemma VisitOver(t: State, h: nat, b: Cell)
    requires b.node.Some? && Visit(t, h, b) && t.gc.Holding?
    ensures h in t.cells
    ensures var c := t.cells[h];
            && |c.ops| > |b.ops| && c.ops[..|b.ops| + 1] == b.ops + [Cleared]
            && (forall k :: |b.ops| < k < |c.ops| ==> c.ops[k].Assigned?)
            && b.node.value !in t.live && c.node.None? && (forall x :: x in t.live ==> t.live[x] != h)
            && c.frees == b.frees + 1 && c.allocs == b.allocs
            && (|c.ops| == |b.ops| + 1 ==> c.raw == Null)
  {
  }

  lemma VisitBegins(s: State, h: nat)
    requires Inv(s) && Enabled(s, GcVisit(h)) && Inv(Apply(s, GcVisit(h)))
    ensures IsValid(s.cells[h].raw) && s.cells[h].node.Some?
    ensures Visit(Apply(s, GcVisit(h)), h, s.cells[h])
  {
    assert CellInv(Apply(s, GcVisit(h)), h);
  }

  // ---------------------------------------------------------------- the nodes of an assignment

  /** The node is kept: both values are objects of one region and no clear came before the write. */
  predicate Kept(c: Cell, b: Cell, ptr: Ptr) {
    SameRegion(b.raw, ptr) && |c.ops| > |b.ops| && c.ops[|b.ops|] == Assigned(ptr)
  }

  /** How far `AssignUnsafe` has come with the nodes, against what the handle was when it began. */
  ghost predicate Accounts(c: Cell, b: Cell, ptr: Ptr) {
    && c.moved == b.moved && |c.ops| >= |b.ops| && c.ops[..|b.ops|] == b.ops
    && if |c.ops| == |b.ops| then
         && c.raw == b.raw && c.allocs == b.allocs
         && (if SameRegion(b.raw, ptr) then
               c.node == b.node && (c.pc == Locking(Assign(ptr)) || c.pc == Rechecking(Assign(ptr)) || c.pc == Keeping(ptr))
             else BeforeWrite(c.pc, ptr) && !c.pc.Keeping?)
       else if c.ops == b.ops + [Cleared] then
         && c.raw == Null && c.allocs == b.allocs
         && BeforeWrite(c.pc, ptr) && !c.pc.Keeping? && !c.pc.Freeing? && !c.pc.Unlinking?
       else if Kept(c, b, ptr) then
         && (c.pc.Finishing? || c.pc.Idle?) && c.allocs == b.allocs
         && (|c.ops| == |b.ops| + 1 ==> c.node == b.node && c.raw == ptr)
       else if IsValid(ptr) then
         AfterWrite(c.pc, ptr) && c.allocs == b.allocs + if c.pc.LockingNew? || c.pc.Allocating? then 0 else 1
       else c.pc.Idle? && c.allocs == b.allocs
  }

  lemma AccountsGcStep(s: State, a: Action, h: nat, b: Cell, ptr: Ptr)
    requires Inv(s) && h in s.cells && Accounts(s.cells[h], b, ptr) && Enabled(s, a) && GcAction(a)
    ensures h in Apply(s, a).cells && Accounts(Apply(s, a).cells[h], b, ptr)
  {
    assert CellInv(s, h);
  }

  lemma AccountsWriteStep(s: State, a: Action, h: nat, b: Cell, ptr: Ptr)
    requires h in s.cells && Accounts(s.cells[h], b, ptr)
    requires Enabled(s, a) && (a.Write? || a.Keep?) && a.h == h
    ensures h in Apply(s, a).cells && Accounts(Apply(s, a).cells[h], b, ptr)
  {
  }

  lemma AccountsLockStep(s: State, a: Action, h: nat, b: Cell, ptr: Ptr)
    requires h in s.cells && Accounts(s.cells[h], b, ptr)
    requires Enabled(s, a) && (a.TakeLock? || a.Recheck? || a.Unlock?) && a.h == h
    ensures h in Apply(s, a).cells && Accounts(Apply(s, a).cells[h], b, ptr)
  {
  }

  lemma AccountsNodeStep(s: State, a: Action, h: nat, b: Cell, ptr: Ptr)
    requires h in s.cells && Accounts(s.cells[h], b, ptr)
    requires Enabled(s, a) && (a.FreeOwn? || a.Unlink? || a.Allocate? || a.Link?) && a.h == h
    ensures h in Apply(s, a).cells && Accounts(Apply(s, a).cells[h], b, ptr)
  {
  }

  lemma AccountsOwnStep(s: State, a: Action, h: nat, b: Cell, ptr: Ptr)
    requires Inv(s) && h in s.cells && Accounts(s.cells[h], b, ptr)
    requires Enabled(s, a) && !GcAction(a) && !Starts(a) && a.h == h
    ensures h in Apply(s, a).cells && Accounts(Apply(s, a).cells[h], b, ptr)
  {
    assert CellInv(s, h);
    hide Inv, CellInv, Accounts, Enabled, Apply;
    if a.Write? || a.Keep? {
      AccountsWriteStep(s, a, h, b, ptr);
    } else if a.TakeLock? || a.Recheck? || a.Unlock? {
      AccountsLockStep(s, a, h, b, ptr);
    } else {
      AccountsNodeStep(s, a, h, b, ptr);
    }
  }

  lemma {:induction false} AccountsPath(s: State, actions: seq<Action>, t: State, h: nat, b: Cell, ptr: Ptr)
    requires Inv(s) && h in s.cells && Accounts(s.cells[h], b, ptr)
    requires NoneStartsOn(actions, h) && Path(s, actions, t)
    ensures Inv(t) && h in t.cells && Accounts(t.cells[h], b, ptr)
    decreases |actions|
  {
    if actions != [] {
      var a := actions[0];
      assert !StartsOn(a, h);
      if GcAction(a) {
        AccountsGcStep(s, a, h, b, ptr);
      } else if a.h == h {
        AccountsOwnStep(s, a, h, b, ptr);
      } else {
        OtherCells(s, a, h);
      }
      InvStep(s, a);
      hide Inv, Apply, Enabled, Accounts;
      AccountsPath(Apply(s, a), actions[1..], t, h, b, ptr);
    }
  }

  /** The nodes that `AssignUnsafe` allocates and frees under every interleaving. If both values are objects of one
      region and no clear comes before the write, the node is kept: none is allocated, and the handle still has the same
      one unless it is cleared afterwards. Otherwise exactly one is allocated if the new value is an object, and none if
      not. What the handle owned or got and does not own at the end has been freed. */
  lemma AssignUnsafeNodes(s: State, ptr: Ptr, actions: seq<Action>, t: State, h: nat)
    requires Reachable(s) && Enabled(s, BeginAssign(h, ptr))
    requires NoneStartsOn(actions, h) && Path(Apply(s, BeginAssign(h, ptr)), actions, t)
    requires h in t.cells && t.cells[h].pc.Idle?
    ensures var b, c := s.cells[h], t.cells[h];
            && |c.ops| > |b.ops|
            && (SameRegion(b.raw, ptr) && c.ops[|b.ops|] == Assigned(ptr) ==>
                  c.allocs == b.allocs && (c.ops == b.ops + [Assigned(ptr)] ==> c.node == b.node))
            && (!(SameRegion(b.raw, ptr) && c.ops[|b.ops|] == Assigned(ptr)) ==>
                  c.allocs == b.allocs + if IsValid(ptr) then 1 else 0)
            && c.frees + Owned(t, h) == b.frees + Owned(s, h) + (c.allocs - b.allocs)
  {
    ReachableInv(s);
    var a, b := BeginAssign(h, ptr), s.cells[h];
    AccountsBegin(s, h, ptr);
    InvStep(s, a);
    AccountsPath(Apply(s, a), actions, t, h, b, ptr);
    Balance(s, h);
    Balance(t, h);
    hide Inv, Apply, Enabled, Path;
  }

  lemma AccountsBegin(s: State, h: nat, ptr: Ptr)
    requires Enabled(s, BeginAssign(h, ptr))
    ensures var t := Apply(s, BeginAssign(h, ptr)); h in t.cells && Accounts(t.cells[h], s.cells[h], ptr)
  {
  }
}
