/** What the handle registry promises under every interleaving of its mutators with the collector. */
module HandleLaws {
  import opened Common
  import opened HandleProtocol
  import opened HandleInvariant

  // ---------------------------------------------------------------- between operations

  /** No mutator is inside an operation and the collector is between handles. */
  ghost predicate Quiet(s: State) {
    (s.gc.Sleeping? || s.gc.Holding?) && forall h :: h in s.cells ==> s.cells[h].pc.Idle? || s.cells[h].pc.Gone?
  }

  /** A handle between operations, whatever the other handles do and whatever other handle the collector works on: it
      has a node exactly when it points to an object; the node is live in the object's region and is the only live node
      that names the handle. */
  lemma HandleAgrees(s: State, h: nat)
    requires Reachable(s) && h in s.cells && s.cells[h].pc.Idle? && !Busy(s.gc, h)
    ensures var c := s.cells[h];
            && (IsValid(c.raw) <==> c.node.Some?)
            && (c.node.Some? ==> c.node.value in s.live && c.node.value.heap == c.raw.heap)
            && (forall x :: x in s.live ==> (s.live[x] == h <==> c.node == Some(x)))
  {
    ReachableInv(s);
    assert CellInv(s, h);
  }

  predicate IdleWithNode(s: State, h: nat) {
    h in s.cells && s.cells[h].pc.Idle? && !Busy(s.gc, h) && s.cells[h].node.Some?
  }

  /** The registry: every live node names a handle that has not been destroyed, and no two idle handles share a node;
      when all handles are between operations, every live node is the node of the handle that it names. */
  lemma RegistryAgrees(s: State)
    requires Reachable(s)
    ensures forall x :: x in s.live ==> s.live[x] in s.cells && !s.cells[s.live[x]].pc.Gone?
    ensures forall g, h :: IdleWithNode(s, g) && IdleWithNode(s, h) && s.cells[g].node == s.cells[h].node ==> g == h
    ensures Quiet(s) ==> forall x :: x in s.live ==>
              s.cells[s.live[x]].pc.Idle? && s.cells[s.live[x]].node == Some(x)
  {
    ReachableInv(s);
    forall x | x in s.live
      ensures s.live[x] in s.cells && !s.cells[s.live[x]].pc.Gone?
      ensures Quiet(s) ==> s.cells[s.live[x]].pc.Idle? && s.cells[s.live[x]].node == Some(x)
    {
      var h := s.live[x];
      assert CellInv(s, h) && !Unowned(s, h);
    }
    forall g, h | IdleWithNode(s, g) && IdleWithNode(s, h) && s.cells[g].node == s.cells[h].node ensures g == h
    {
      HandleAgrees(s, g);
      HandleAgrees(s, h);
    }
  }

  // ---------------------------------------------------------------- checks that never fail

  /** `FreeNode` is only ever called, in `AssignUnsafe` and the destructor, by the collector, or in a locked
      assignment of a valid handle, with a live node that names the handle and belongs to the region of the value just
      read. */
  lemma FreesAreSafe(s: State, h: nat)
    requires Reachable(s) && h in s.cells
    requires || s.cells[h].pc.Freeing? || s.gc == GcFreeing(h)
             || (s.cells[h].pc.Idle? && s.lock.Free? && IsValid(s.cells[h].raw))
    ensures var c := s.cells[h];
            && IsValid(c.raw) && c.node.Some?
            && c.node.value in s.live && s.live[c.node.value] == h && c.node.value.heap == c.raw.heap
  {
    ReachableInv(s);
    assert CellInv(s, h);
  }

  /** The check `!GetNode()` of the destructor and of `AssignUnsafe` never fails. */
  lemma NodeCheckNeverFails(s: State, h: nat)
    requires Reachable(s) && h in s.cells && s.cells[h].pc.Rechecking? && !IsValid(s.cells[h].raw)
    ensures s.cells[h].node.None?
  {
    ReachableInv(s);
    assert CellInv(s, h);
  }

  /** The locked section of a move assignment: `UpdateOwner` is called on a live node that names the other handle; no
      node is allocated or freed; the value and its node change hands and the other handle is left without both. */
  lemma MoveHandsOver(s: State, h: nat, from: nat)
    requires Reachable(s) && h in s.cells && from in s.cells && h != from
    requires s.cells[h].pc.Idle? && s.cells[from].pc.Idle? && s.lock.Free? && s.cells[h].raw.Null?
    ensures var d := s.cells[from];
            IsValid(d.raw) ==> d.node.Some? && d.node.value in s.live && s.live[d.node.value] == from
    ensures Enabled(s, MoveIn(h, from))
    ensures var t := Apply(s, MoveIn(h, from));
            && t.cells.Keys == s.cells.Keys && t.live.Keys == s.live.Keys
            && t.cells[h].raw == s.cells[from].raw && t.cells[h].node == s.cells[from].node
            && (if IsValid(t.cells[h].raw) then Linked(t, h) else Empty(t, h)) && Empty(t, from)
  {
    ReachableInv(s);
    assert CellInv(s, from) && CellInv(s, h);
    MoveInOwn(s, h, from);
    MoveInFrame(s, h, from);
  }

  // ---------------------------------------------------------------- who changes values

  lemma OwnValuesStep(s: State, a: Action, h: nat)
    requires Enabled(s, a) && !GcAction(a) && h in s.cells && (a.h == h || (a.MoveIn? && a.from == h))
    ensures var t := Apply(s, a);
            h in t.cells && (t.cells[h].raw != s.cells[h].raw ==>
              || (a.Write? && s.cells[h].pc == Writing(t.cells[h].raw))
              || (a.Keep? && s.cells[h].pc == Keeping(t.cells[h].raw))
              || (a.SafeAssign? && a.ptr == t.cells[h].raw)
              || (a.MoveIn? && a.h == h && s.cells[a.from].raw == t.cells[h].raw)
              || (a.MoveIn? && a.from == h && t.cells[h].raw == Null))
  {
  }

  lemma OtherCells(s: State, a: Action, h: nat)
    requires Enabled(s, a) && !GcAction(a) && h in s.cells && a.h != h && !(a.MoveIn? && a.from == h)
    ensures h in Apply(s, a).cells && Apply(s, a).cells[h] == s.cells[h]
  {
  }

  lemma GcValuesStep(s: State, a: Action, h: nat)
    requires Inv(s) && Enabled(s, a) && GcAction(a) && h in s.cells
    ensures var t := Apply(s, a);
            h in t.cells && (t.cells[h].raw != s.cells[h].raw ==>
              a == GcNull && s.gc == Nulling(h) && IsValid(s.cells[h].raw) && t.cells[h].raw == Null)
    ensures !Busy(s.gc, h) ==> Apply(s, a).cells[h] == s.cells[h]
  {
    assert CellInv(s, h);
  }

  /** Who may change which value: the collector nulls one object at a time; a mutator writes only the value that it
      assigns, and keeps the node only for an object; a move passes the value on and leaves null behind. */
  lemma ValuesStep(s: State, a: Action, h: nat)
    requires Inv(s) && Enabled(s, a) && h in s.cells
    ensures var t := Apply(s, a);
            h in t.cells && (t.cells[h].raw != s.cells[h].raw ==>
              || (a == GcNull && s.gc == Nulling(h) && IsValid(s.cells[h].raw) && t.cells[h].raw == Null)
              || (a.Write? && a.h == h && s.cells[h].pc == Writing(t.cells[h].raw))
              || (a.Keep? && a.h == h && s.cells[h].pc == Keeping(t.cells[h].raw) && IsValid(t.cells[h].raw))
              || (a.SafeAssign? && a.h == h && a.ptr == t.cells[h].raw)
              || (a.MoveIn? && a.h == h && s.cells[a.from].raw == t.cells[h].raw)
              || (a.MoveIn? && a.from == h && t.cells[h].raw == Null))
  {
    assert CellInv(s, h);
    if GcAction(a) {
      hide Apply, Enabled;
      GcValuesStep(s, a, h);
    } else if a.h == h || (a.MoveIn? && a.from == h) {
      hide Apply, Enabled;
      OwnValuesStep(s, a, h);
    } else {
      OtherCells(s, a, h);
    }
  }

  // ---------------------------------------------------------------- destruction

  /** Once the destructor has finished no region node names the handle, the collector is not working on it, and as
      many of its nodes have been freed as were allocated for it or received in moves, less those given away. */
  lemma DestroyedForGood(s: State, h: nat)
    requires Reachable(s) && h in s.cells && s.cells[h].pc.Gone?
    ensures (forall x :: x in s.live ==> s.live[x] != h) && s.cells[h].node.None?
    ensures !Busy(s.gc, h)
    ensures s.cells[h].frees == s.cells[h].allocs + s.cells[h].moved
  {
    ReachableInv(s);
    assert CellInv(s, h);
  }

  /** No later step, of the collector in particular, touches a destroyed handle. */
  lemma {:induction false} DestroyedUntouched(s: State, actions: seq<Action>, t: State, h: nat)
    requires Inv(s) && h in s.cells && s.cells[h].pc.Gone? && Path(s, actions, t)
    ensures h in t.cells && t.cells[h] == s.cells[h]
    decreases |actions|
  {
    if actions != [] {
      UntouchedStep(s, actions[0], h);
      InvStep(s, actions[0]);
      hide Inv, Apply, Enabled;
      DestroyedUntouched(Apply(s, actions[0]), actions[1..], t, h);
    }
  }

  lemma UntouchedStep(s: State, a: Action, h: nat)
    requires Inv(s) && h in s.cells && s.cells[h].pc.Gone? && Enabled(s, a)
    ensures h in Apply(s, a).cells && Apply(s, a).cells[h] == s.cells[h]
  {
    assert CellInv(s, h);
    hide Inv, Apply;
    if GcAction(a) {
      GcValuesStep(s, a, h);
    } else {
      OtherCells(s, a, h);
    }
  }

  // ---------------------------------------------------------------- `AssignUnsafe` as a locked assignment

  /** What an assignment of `ptr` adds to the history when it takes effect at once: at most one clear before it and,
      if `ptr` is an object, at most one after it; the value is then `ptr`, or null if it was cleared. */
  ghost predicate Took(c: Cell, base: seq<Op>, ptr: Ptr) {
    || (c.ops == base + [Assigned(ptr)] && c.raw == ptr)
    || (c.ops == base + [Cleared, Assigned(ptr)] && c.raw == ptr)
    || (c.ops == base + [Assigned(ptr), Cleared] && c.raw == Null && IsValid(ptr))
    || (c.ops == base + [Cleared, Assigned(ptr), Cleared] && c.raw == Null && IsValid(ptr))
  }

  ghost predicate NotYet(c: Cell, base: seq<Op>) {
    c.ops == base || (c.ops == base + [Cleared] && !IsValid(c.raw))
  }

  predicate BeforeWrite(pc: Pc, ptr: Ptr) {
    || pc == Locking(Assign(ptr)) || pc == Rechecking(Assign(ptr)) || pc == Keeping(ptr) || pc == Freeing(Assign(ptr))
    || pc == Unlinking(Assign(ptr)) || pc == Unlocking(Assign(ptr)) || pc == Writing(ptr)
  }

  predicate AfterWrite(pc: Pc, ptr: Ptr) {
    pc == LockingNew(ptr) || pc == Allocating(ptr) || (pc.Linking? && pc.ptr == ptr) || pc.Finishing? || pc.Idle?
  }

  ghost predicate Assigning(c: Cell, base: seq<Op>, ptr: Ptr) {
    (BeforeWrite(c.pc, ptr) && NotYet(c, base)) || (AfterWrite(c.pc, ptr) && Took(c, base, ptr))
  }

  /** The action starts an operation on `h`, or moves its value away. */
  predicate StartsOn(a: Action, h: nat) { Starts(a) && (a.h == h || (a.MoveIn? && a.from == h)) }

  /** The steps at which an assignment takes effect. */
  lemma OwnWriteStep(s: State, a: Action, h: nat, base: seq<Op>, ptr: Ptr)
    requires h in s.cells && Assigning(s.cells[h], base, ptr)
    requires Enabled(s, a) && (a.Write? || a.Keep?) && a.h == h
    ensures h in Apply(s, a).cells && Assigning(Apply(s, a).cells[h], base, ptr)
  {
    assert base + [Cleared] + [Assigned(ptr)] == base + [Cleared, Assigned(ptr)];
  }

  lemma OwnLockStep(s: State, a: Action, h: nat, base: seq<Op>, ptr: Ptr)
    requires h in s.cells && Assigning(s.cells[h], base, ptr)
    requires Enabled(s, a) && (a.TakeLock? || a.Recheck? || a.Unlock?) && a.h == h
    ensures h in Apply(s, a).cells && Assigning(Apply(s, a).cells[h], base, ptr)
  {
  }

  lemma OwnNodeStep(s: State, a: Action, h: nat, base: seq<Op>, ptr: Ptr)
    requires h in s.cells && Assigning(s.cells[h], base, ptr)
    requires Enabled(s, a) && (a.FreeOwn? || a.Unlink? || a.Allocate? || a.Link?) && a.h == h
    ensures h in Apply(s, a).cells && Assigning(Apply(s, a).cells[h], base, ptr)
  {
  }

  lemma OwnAssignStep(s: State, a: Action, h: nat, base: seq<Op>, ptr: Ptr)
    requires h in s.cells && Assigning(s.cells[h], base, ptr)
    requires Enabled(s, a) && !GcAction(a) && !Starts(a) && a.h == h
    ensures h in Apply(s, a).cells && Assigning(Apply(s, a).cells[h], base, ptr)
  {
    hide Assigning, Enabled, Apply;
    if a.Write? || a.Keep? {
      OwnWriteStep(s, a, h, base, ptr);
    } else if a.TakeLock? || a.Recheck? || a.Unlock? {
      OwnLockStep(s, a, h, base, ptr);
    } else {
      OwnNodeStep(s, a, h, base, ptr);
    }
  }

  lemma GcAssignStep(s: State, a: Action, h: nat, base: seq<Op>, ptr: Ptr)
    requires Inv(s) && h in s.cells && Assigning(s.cells[h], base, ptr)
    requires Enabled(s, a) && GcAction(a)
    ensures h in Apply(s, a).cells && Assigning(Apply(s, a).cells[h], base, ptr)
  {
    assert CellInv(s, h);
    assert base + [Assigned(ptr)] + [Cleared] == base + [Assigned(ptr), Cleared];
    assert base + [Cleared, Assigned(ptr)] + [Cleared] == base + [Cleared, Assigned(ptr), Cleared];
  }

  lemma AssignStep(s: State, a: Action, h: nat, base: seq<Op>, ptr: Ptr)
    requires Inv(s) && h in s.cells && Assigning(s.cells[h], base, ptr)
    requires Enabled(s, a) && !StartsOn(a, h)
    ensures h in Apply(s, a).cells && Assigning(Apply(s, a).cells[h], base, ptr)
  {
    if GcAction(a) {
      GcAssignStep(s, a, h, base, ptr);
    } else if a.h == h {
      OwnAssignStep(s, a, h, base, ptr);
    }
  }

  ghost predicate NoneStartsOn(actions: seq<Action>, h: nat) {
    forall k :: 0 <= k < |actions| ==> !StartsOn(actions[k], h)
  }

  lemma {:induction false} AssignPath(s: State, actions: seq<Action>, t: State, h: nat, base: seq<Op>, ptr: Ptr)
    requires Inv(s) && h in s.cells && Assigning(s.cells[h], base, ptr)
    requires NoneStartsOn(actions, h) && Path(s, actions, t)
    ensures Inv(t) && h in t.cells && Assigning(t.cells[h], base, ptr)
    decreases |actions|
  {
    if actions != [] {
      var a := actions[0];
      assert !StartsOn(a, h);
      AssignStep(s, a, h, base, ptr);
      InvStep(s, a);
      hide Inv, Apply, Enabled, Assigning;
      AssignPath(Apply(s, a), actions[1..], t, h, base, ptr);
    }
  }

  /** `AssignUnsafe` refines `AssignSafe`: however its steps interleave with the collector and with other handles,
      when it has returned it has taken effect exactly once, with any clear of the collector wholly before or wholly
      after it; and unless the collector is on the handle at that moment, exactly one live node names the handle if
      its value is an object, and none otherwise. */
  lemma AssignUnsafeRefines(s: State, ptr: Ptr, actions: seq<Action>, t: State, h: nat)
    requires Reachable(s) && Enabled(s, BeginAssign(h, ptr))
    requires NoneStartsOn(actions, h) && Path(Apply(s, BeginAssign(h, ptr)), actions, t)
    requires h in t.cells && (t.cells[h].pc.Idle? || t.cells[h].pc.Gone?)
    ensures t.cells[h].pc.Idle? && Took(t.cells[h], s.cells[h].ops, ptr)
    ensures !Busy(t.gc, h) ==> if IsValid(t.cells[h].raw) then Linked(t, h) else Empty(t, h)
  {
    ReachableInv(s);
    var a := BeginAssign(h, ptr);
    InvStep(s, a);
    assert Assigning(Apply(s, a).cells[h], s.cells[h].ops, ptr);
    hide *;
    AssignPath(Apply(s, a), actions, t, h, s.cells[h].ops, ptr);
    AssignOver(t.cells[h], s.cells[h].ops, ptr);
    if !Busy(t.gc, h) { IdleShape(t, h); }
  }

  lemma AssignOver(c: Cell, base: seq<Op>, ptr: Ptr)
    requires Assigning(c, base, ptr) && (c.pc.Idle? || c.pc.Gone?)
    ensures c.pc.Idle? && Took(c, base, ptr)
  {
  }

  lemma IdleShape(s: State, h: nat)
    requires Inv(s) && h in s.cells && s.cells[h].pc.Idle? && !Busy(s.gc, h)
    ensures if IsValid(s.cells[h].raw) then Linked(s, h) else Empty(s, h)
  {
    assert CellInv(s, h);
  }

  /** A locked assignment takes effect in the same way, with no clear on either side, and it is never refused: a free
      slot always exists. It keeps the node in the same region, and otherwise exchanges the old one for the new one. */
  lemma SafeAssignTakes(s: State, h: nat, ptr: Ptr) returns (slot: nat)
    requires Reachable(s) && h in s.cells && s.cells[h].pc.Idle? && s.lock.Free?
    ensures Enabled(s, SafeAssign(h, ptr, slot))
    ensures var t := Apply(s, SafeAssign(h, ptr, slot));
            && h in t.cells && t.cells[h].ops == s.cells[h].ops + [Assigned(ptr)] && t.cells[h].raw == ptr
            && (if IsValid(ptr) then Linked(t, h) else Empty(t, h))
            && t.live == WithNode(WithoutNode(s.live, s.cells[h].node), t.cells[h].node, h)
            && (SameRegion(s.cells[h].raw, ptr) ==> t.cells[h].node == s.cells[h].node)
  {
    ReachableInv(s);
    slot := FreeSlot(s.live);
    assert CellInv(s, h);
    SafeAssignOwn(s, h, ptr, slot);
    SafeAssignRegion(s, h, ptr, slot);
  }

  /** What the locked assignment does to the regions is what the method `AssignSafe` of a handle object promises. */
  lemma SafeAssignRegion(s: State, h: nat, ptr: Ptr, slot: nat)
    requires h in s.cells && (Linked(s, h) || Empty(s, h)) && SafeAssignFits(s, h, ptr, slot)
    ensures var t := AssignSafe(s, h, ptr, slot);
            && h in t.cells && t.live == WithNode(WithoutNode(s.live, s.cells[h].node), t.cells[h].node, h)
            && (SameRegion(s.cells[h].raw, ptr) ==> t.cells[h].node == s.cells[h].node)
  {
  }

  // ---------------------------------------------------------------- operations in two sections

  /** While its mutator starts nothing, a handle keeps its value, or the collector clears it once. */
  ghost predicate KeptOrCleared(c: Cell, base: Cell) {
    || (c.raw == base.raw && c.ops == base.ops)
    || (IsValid(base.raw) && c.raw == Null && c.ops == base.ops + [Cleared])
  }

  lemma IdleStep(s: State, a: Action, h: nat, base: Cell)
    requires Inv(s) && Enabled(s, a) && !StartsOn(a, h)
    requires h in s.cells && s.cells[h].pc.Idle? && KeptOrCleared(s.cells[h], base)
    ensures var t := Apply(s, a);
            h in t.cells && t.cells[h].pc.Idle? && KeptOrCleared(t.cells[h], base)
  {
    assert CellInv(s, h);
    if !GcAction(a) {
      hide Apply;
      OtherCells(s, a, h);
    }
  }

  lemma {:induction false} IdlePath(s: State, actions: seq<Action>, t: State, h: nat, base: Cell)
    requires Inv(s) && h in s.cells && s.cells[h].pc.Idle? && KeptOrCleared(s.cells[h], base)
    requires NoneStartsOn(actions, h) && Path(s, actions, t)
    ensures Inv(t) && h in t.cells && t.cells[h].pc.Idle? && KeptOrCleared(t.cells[h], base)
    decreases |actions|
  {
    if actions != [] {
      var a := actions[0];
      assert !StartsOn(a, h);
      IdleStep(s, a, h, base);
      InvStep(s, a);
      hide Inv, Apply, Enabled, KeptOrCleared;
      IdlePath(Apply(s, a), actions[1..], t, h, base);
    }
  }

  /** `Release` returns the value that it reads in `s` and clears in `t`, with anything in between: the handle ends
      empty, and the collector has cleared at most that value, before the clear. */
  lemma ReleaseClears(s: State, actions: seq<Action>, t: State, h: nat, slot: nat)
    requires Reachable(s) && h in s.cells && s.cells[h].pc.Idle?
    requires NoneStartsOn(actions, h) && Path(s, actions, t) && Enabled(t, SafeAssign(h, Null, slot))
    ensures var u := Apply(t, SafeAssign(h, Null, slot));
            && h in u.cells && u.cells[h].raw == Null && Empty(u, h)
            && (|| u.cells[h].ops == s.cells[h].ops + [Assigned(Null)]
                || (IsValid(s.cells[h].raw) && u.cells[h].ops == s.cells[h].ops + [Cleared, Assigned(Null)]))
  {
    ReachableInv(s);
    IdlePath(s, actions, t, h, s.cells[h]);
    SafeAssignOwn(t, h, Null, slot);
    SafeAssignOps(t, h, Null, slot);
    assert s.cells[h].ops + [Cleared] + [Assigned(Null)] == s.cells[h].ops + [Cleared, Assigned(Null)];
  }

  lemma SafeAssignOps(s: State, h: nat, ptr: Ptr, slot: nat)
    requires h in s.cells && SafeAssignFits(s, h, ptr, slot)
    ensures var t := AssignSafe(s, h, ptr, slot);
            && h in t.cells && t.cells[h].ops == s.cells[h].ops + [Assigned(ptr)] && t.cells[h].pc == s.cells[h].pc
            && forall k :: k in s.cells && k != h ==> k in t.cells && t.cells[k] == s.cells[k]
  {
  }

  /** A move assignment clears its target in `s` and moves in `t`, with anything in between: the locked section is
      possible as soon as the lock is free, and the target ends with the value that the other handle had in `s`,
      unless the collector has cleared that value, and with a node exactly when the value is an object. */
  lemma MoveAssigns(s: State, h: nat, from: nat, slot: nat, actions: seq<Action>, t: State)
    requires Reachable(s) && Enabled(s, SafeAssign(h, Null, slot))
    requires from in s.cells && from != h && s.cells[from].pc.Idle?
    requires NoneStartsOn(actions, h) && NoneStartsOn(actions, from)
    requires Path(Apply(s, SafeAssign(h, Null, slot)), actions, t) && t.lock.Free?
    ensures Enabled(t, MoveIn(h, from))
    ensures var u := Apply(t, MoveIn(h, from));
            && h in u.cells && from in u.cells && Empty(u, from)
            && (if IsValid(u.cells[h].raw) then Linked(u, h) else Empty(u, h))
            && (u.cells[h].raw == s.cells[from].raw || (IsValid(s.cells[from].raw) && u.cells[h].raw == Null))
  {
    ReachableInv(s);
    var a := SafeAssign(h, Null, slot);
    InvStep(s, a);
    SafeAssignOwn(s, h, Null, slot);
    SafeAssignOps(s, h, Null, slot);
    var r := Apply(s, a);
    IdlePath(r, actions, t, h, r.cells[h]);
    IdlePath(r, actions, t, from, r.cells[from]);
    hide KeptOrCleared, Apply, Inv, CellInv, Path;
    MoveNow(t, h, from, r.cells[h], r.cells[from]);
  }

  lemma MoveNow(t: State, h: nat, from: nat, target: Cell, source: Cell)
    requires Inv(t) && h in t.cells && from in t.cells && h != from && t.lock.Free?
    requires t.cells[h].pc.Idle? && t.cells[from].pc.Idle? && target.raw == Null
    requires KeptOrCleared(t.cells[h], target) && KeptOrCleared(t.cells[from], source)
    ensures Enabled(t, MoveIn(h, from))
    ensures var u := Apply(t, MoveIn(h, from));
            && h in u.cells && from in u.cells && Empty(u, from)
            && (if IsValid(u.cells[h].raw) then Linked(u, h) else Empty(u, h))
            && (u.cells[h].raw == source.raw || (IsValid(source.raw) && u.cells[h].raw == Null))
  {
    assert CellInv(t, from);
    MoveInOwn(t, h, from);
  }

  // ---------------------------------------------------------------- progress

  /** How many own steps a mutator still takes in its operation. */
  function StepsLeft(pc: Pc): nat {
    match pc
    case Locking(_) => 11
    case Rechecking(_) => 10
    case Freeing(_) => 9
    case Unlinking(_) => 8
    case Unlocking(_) => 7
    case Writing(_) => 6
    case LockingNew(_) => 5
    case Allocating(_) => 4
    case Linking(_, _) => 3
    case Keeping(_) => 2
    case Finishing => 1
    case Idle => 0
    case Gone => 0
  }

  /** A mutator's step in an operation brings it closer to its end. */
  lemma OperationStep(s: State, a: Action)
    requires Enabled(s, a) && !GcAction(a) && !Starts(a)
    ensures StepsLeft(Apply(s, a).cells[a.h].pc) < StepsLeft(s.cells[a.h].pc) <= 11
  {
  }

  /** Only its own mutator changes where a mutator is. */
  lemma OthersLeavePc(s: State, a: Action, h: nat)
    requires Enabled(s, a) && h in s.cells && !StartsOn(a, h) && (GcAction(a) || a.h != h)
    ensures h in Apply(s, a).cells && Apply(s, a).cells[h].pc == s.cells[h].pc
  {
  }

  function OwnSteps(actions: seq<Action>, h: nat): nat {
    if actions == [] then 0
    else (if !GcAction(actions[0]) && actions[0].h == h then 1 else 0) + OwnSteps(actions[1..], h)
  }

  /** Over any run, an operation of a handle takes at most eleven steps of its own mutator, whatever the other
      mutators and the collector do meanwhile. */
  lemma {:induction false} OperationsAreBounded(s: State, actions: seq<Action>, t: State, h: nat)
    requires h in s.cells && NoneStartsOn(actions, h) && Path(s, actions, t)
    ensures h in t.cells && OwnSteps(actions, h) + StepsLeft(t.cells[h].pc) <= StepsLeft(s.cells[h].pc) <= 11
    decreases |actions|
  {
    if actions != [] {
      var a := actions[0];
      assert !StartsOn(a, h);
      if GcAction(a) || a.h != h {
        OthersLeavePc(s, a, h);
      } else {
        OperationStep(s, a);
      }
      hide Apply, Enabled, StepsLeft;
      OperationsAreBounded(Apply(s, a), actions[1..], t, h);
    }
  }

  /** How many steps the collector still takes before it releases the lock, unless it visits another handle. */
  function GcStepsLeft(gc: Gc): nat {
    match gc
    case Visiting(_) => 5
    case GcFreeing(_) => 4
    case Nulling(_) => 3
    case GcUnlinking(_) => 2
    case Holding => 1
    case Sleeping => 0
  }

  /** A visit of the collector ends after at most five steps of its own, with the lock released. */
  lemma CollectorStep(s: State, a: Action)
    requires Enabled(s, a) && GcAction(a) && !a.GcLock? && !a.GcVisit?
    ensures GcStepsLeft(Apply(s, a).gc) < GcStepsLeft(s.gc) <= 5
  {
  }

  /** A slot beyond all slots in use. */
  lemma FreeSlot(live: map<Node, nat>) returns (slot: nat)
    ensures forall heap: nat :: Node(heap, slot) !in live
    decreases |live|
  {
    if live == map[] {
      slot := 0;
    } else {
      slot := UnusedIn(live.Keys);
    }
  }

  lemma UnusedIn(nodes: set<Node>) returns (slot: nat)
    ensures forall x :: x in nodes ==> x.slot < slot
    decreases |nodes|
  {
    if nodes == {} {
      slot := 0;
    } else {
      var x :| x in nodes;
      var rest := UnusedIn(nodes - {x});
      slot := if x.slot < rest then rest else x.slot + 1;
    }
  }

  /** The next step of a mutator, given that the lock is free or its own; between operations there is none. */
  function NextStep(pc: Pc, h: nat, slot: nat): Action {
    match pc
    case Locking(_) => TakeLock(h)
    case LockingNew(_) => TakeLock(h)
    case Rechecking(_) => Recheck(h)
    case Keeping(_) => Keep(h)
    case Freeing(_) => FreeOwn(h)
    case Unlinking(_) => Unlink(h)
    case Writing(_) => Write(h)
    case Allocating(_) => Allocate(h, slot)
    case Linking(_, _) => Link(h)
    case _ => Unlock(h)
  }

  /** The next step of the collector towards releasing the lock. */
  function NextGcStep(gc: Gc): Action {
    match gc
    case Visiting(_) => GcCheck
    case GcFreeing(_) => GcFree
    case Nulling(_) => GcNull
    case GcUnlinking(_) => GcUnlink
    case _ => GcUnlock
  }

  /** The collector never stands still with the lock, and between handles it can visit every handle that a live node
      names. */
  lemma CollectorGoesOn(s: State)
    requires Inv(s) && s.lock.Collector?
    ensures Enabled(s, NextGcStep(s.gc))
    ensures s.gc.Holding? ==> forall x :: x in s.live ==> Enabled(s, GcVisit(s.live[x]))
  {
    if !s.gc.Holding? { assert CellInv(s, s.gc.h); }
    forall x | x in s.live ensures s.live[x] in s.live.Values {
    }
  }

  /** A collection can begin whenever the lock is free. */
  lemma CollectorStarts(s: State)
    requires Inv(s) && s.lock.Free?
    ensures Enabled(s, GcLock) && Apply(s, GcLock).gc.Holding? && Apply(s, GcLock).lock.Collector?
  {
  }

  /** The lock is never the reason for a standstill: while some operation is under way, some mutator can take a step
      of its operation, or the collector has the lock and can take a step towards releasing it. */
  lemma SomeoneSteps(s: State, h: nat)
    requires Inv(s) && h in s.cells && !s.cells[h].pc.Idle? && !s.cells[h].pc.Gone?
    ensures exists a :: Enabled(s, a) && !Starts(a) && !a.GcLock? && !a.GcVisit? && (GcAction(a) <==> s.lock.Collector?)
  {
    assert CellInv(s, h);
    if s.lock.Collector? {
      CollectorGoesOn(s);
    } else {
      var k := if s.lock.Mutator? then s.lock.h else h;
      assert CellInv(s, k);
      var slot := FreeSlot(s.live);
      assert Enabled(s, NextStep(s.cells[k].pc, k, slot));
    }
  }
}
