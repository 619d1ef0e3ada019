/**
  `BasicCrossThreadPersistent` as a state machine: any number of handles, each used by one mutator thread, and the
  garbage collector, which clears handles while it holds the region lock. Every read that decides a branch, every
  field write, every change of a region and every lock operation is a step of its own, except that `AssignSafe`,
  which runs under the lock from its first read to its last write, is one step, and so is the locked section of a
  move assignment. `Clear`, copies and assignments of the sentinel are `AssignSafe` steps; a move assignment is an
  `AssignSafe` step that clears the target, then, with anything in between, a `MoveIn` step.
 */
module HandleProtocol {
  import opened Common

  /** A raw pointer: null, the sentinel, or an object with the heap, and so the region, that it belongs to. */
  datatype Ptr = Null | Sentinel | Object(heap: nat, address: nat)

  predicate IsValid(p: Ptr) { p.Object? }

  predicate SameRegion(p: Ptr, q: Ptr) { IsValid(p) && IsValid(q) && p.heap == q.heap }

  /** A `PersistentNode` of the region of a heap. */
  datatype Node = Node(heap: nat, slot: nat)

  /** What a locked section that may free the node is for. */
  datatype Goal = Assign(ptr: Ptr) | Destroy

  /** Where the mutator thread of a handle is. */
  datatype Pc =
    | Idle
    | Locking(goal: Goal)                // the unlocked check succeeded; about to lock
    | Rechecking(goal: Goal)             // holds the lock; about to read the value again
    | Keeping(ptr: Ptr)                  // holds the lock; same region: about to write the value and keep the node
    | Freeing(goal: Goal)                // holds the lock; about to call `FreeNode`
    | Unlinking(goal: Goal)              // holds the lock; about to write a null node
    | Unlocking(goal: Goal)              // about to release the lock
    | Writing(ptr: Ptr)                  // without the lock: about to write the value
    | LockingNew(ptr: Ptr)               // the value is written; about to lock
    | Allocating(ptr: Ptr)               // holds the lock; about to call `AllocateNode`
    | Linking(ptr: Ptr, made: Node)     // holds the lock; about to write the new node
    | Finishing                          // about to release the lock and return
    | Gone                               // the destructor has finished

  /** An effect on the value that other threads can see: an assignment or a clear by the collector. */
  datatype Op = Assigned(ptr: Ptr) | Cleared

  /** A handle: its two fields, its mutator, and the history of its value and of its nodes: those allocated for it,
      those freed, and those received in moves less those given away. */
  datatype Cell = Cell(raw: Ptr, node: Option<Node>, pc: Pc, ops: seq<Op>, allocs: nat, frees: nat, moved: int)

  datatype Lock = Free | Mutator(h: nat) | Collector

  /** Where the collector is, and with which handle. */
  datatype Gc =
    | Sleeping
    | Holding                  // holds the lock, between handles
    | Visiting(h: nat)         // about to check the value in `ClearFromGC`
    | GcFreeing(h: nat)        // about to call `FreeNode`
    | Nulling(h: nat)          // about to write a null value
    | GcUnlinking(h: nat)      // about to write a null node

  datatype State = State(cells: map<nat, Cell>, live: map<Node, nat>, lock: Lock, gc: Gc)

  ghost predicate Init(s: State) { s == State(map[], map[], Free, Sleeping) }

  datatype Action =
    | Construct(h: nat, ptr: Ptr)
    | BeginAssign(h: nat, ptr: Ptr)      // `AssignUnsafe`
    | SafeAssign(h: nat, ptr: Ptr, slot: nat)
    | MoveIn(h: nat, from: nat)          // the locked section of a move assignment, after its `Clear`
    | BeginDestroy(h: nat)
    | TakeLock(h: nat)
    | Recheck(h: nat)
    | Keep(h: nat)
    | FreeOwn(h: nat)
    | Unlink(h: nat)
    | Unlock(h: nat)
    | Write(h: nat)
    | Allocate(h: nat, slot: nat)
    | Link(h: nat)
    | GcLock
    | GcVisit(h: nat)
    | GcCheck
    | GcFree
    | GcNull
    | GcUnlink
    | GcUnlock

  predicate GcAction(a: Action) { a.GcLock? || a.GcVisit? || a.GcCheck? || a.GcFree? || a.GcNull? || a.GcUnlink? || a.GcUnlock? }

  /** Actions that start an operation of a handle's mutator. */
  predicate Starts(a: Action) { a.Construct? || a.BeginAssign? || a.SafeAssign? || a.MoveIn? || a.BeginDestroy? }

  predicate HoldsLock(pc: Pc) {
    pc.Rechecking? || pc.Keeping? || pc.Freeing? || pc.Unlinking? || pc.Unlocking? || pc.Allocating? || pc.Linking? || pc.Finishing?
  }

  /** The nodes in use when `node` is among them, with owner `h`, and when it is not. */
  function WithNode<T>(live: map<Node, T>, node: Option<Node>, h: T): map<Node, T> {
    if node.Some? then live[node.value := h] else live
  }

  function WithoutNode<T>(live: map<Node, T>, node: Option<Node>): map<Node, T> {
    if node.Some? then live - {node.value} else live
  }

  // ---------------------------------------------------------------- the collector

  predicate GcEnabled(s: State, a: Action)
    requires GcAction(a)
  {
    match a
    case GcLock => s.gc.Sleeping? && s.lock.Free?
    // The collector finds handles through the live nodes of the regions.
    case GcVisit(h) => s.gc.Holding? && h in s.cells && h in s.live.Values
    case GcCheck => s.gc.Visiting? && s.gc.h in s.cells
    case GcFree => s.gc.GcFreeing? && s.gc.h in s.cells && s.cells[s.gc.h].node.Some?
    case GcNull => s.gc.Nulling? && s.gc.h in s.cells
    case GcUnlink => s.gc.GcUnlinking? && s.gc.h in s.cells
    case GcUnlock => s.gc.Holding?
  }

  /** `FreeNode` of the handle's node. */
  function FreeNode(s: State, h: nat): State
    requires h in s.cells && s.cells[h].node.Some?
  {
    s.(live := s.live - {s.cells[h].node.value}, cells := s.cells[h := s.cells[h].(frees := s.cells[h].frees + 1)])
  }

  function GcApply(s: State, a: Action): State
    requires GcAction(a) && GcEnabled(s, a)
  {
    match a
    case GcLock => s.(lock := Collector, gc := Holding)
    case GcVisit(h) => s.(gc := Visiting(h))
    case GcCheck => s.(gc := if IsValid(s.cells[s.gc.h].raw) then GcFreeing(s.gc.h) else Holding)
    case GcFree => FreeNode(s, s.gc.h).(gc := Nulling(s.gc.h))
    case GcNull =>
      var c := s.cells[s.gc.h];
      s.(cells := s.cells[s.gc.h := c.(raw := Null, ops := c.ops + [Cleared])], gc := GcUnlinking(s.gc.h))
    case GcUnlink => s.(cells := s.cells[s.gc.h := s.cells[s.gc.h].(node := None)], gc := Holding)
    case GcUnlock => s.(lock := Free, gc := Sleeping)
  }

  // ---------------------------------------------------------------- the mutators

  predicate Enabled(s: State, a: Action) {
    if GcAction(a) then GcEnabled(s, a)
    else if a.Construct? then a.h !in s.cells
    else a.h in s.cells && MutatorEnabled(s, a)
  }

  predicate MutatorEnabled(s: State, a: Action)
    requires !GcAction(a) && !a.Construct? && a.h in s.cells
  {
    var pc := s.cells[a.h].pc;
    match a
    case BeginAssign(_, _) => pc.Idle?
    case SafeAssign(h, ptr, slot) => pc.Idle? && s.lock.Free? && SafeAssignFits(s, h, ptr, slot)
    case MoveIn(h, from) => pc.Idle? && s.lock.Free? && MoveInFits(s, h, from)
    case BeginDestroy(_) => pc.Idle?
    case TakeLock(_) => (pc.Locking? || pc.LockingNew?) && s.lock.Free?
    case Recheck(_) => pc.Rechecking?
    case Keep(_) => pc.Keeping?
    case FreeOwn(_) => pc.Freeing? && s.cells[a.h].node.Some?
    case Unlink(_) => pc.Unlinking?
    case Unlock(_) => pc.Unlocking? || pc.Finishing?
    case Write(_) => pc.Writing?
    case Allocate(_, slot) => pc.Allocating? && IsValid(pc.ptr) && Node(pc.ptr.heap, slot) !in s.live
    case Link(_) => pc.Linking?
  }

  /** `AssignSafe` frees a node only if the handle has one, and allocates one that is not in use. */
  predicate SafeAssignFits(s: State, h: nat, ptr: Ptr, slot: nat)
    requires h in s.cells
  {
    var c := s.cells[h];
    var same := IsValid(c.raw) && IsValid(ptr) && c.raw.heap == ptr.heap;
    && (IsValid(c.raw) && !same ==> c.node.Some?)
    && (IsValid(ptr) && !same ==>
          Node(ptr.heap, slot) !in (if IsValid(c.raw) && c.node.Some? then s.live - {c.node.value} else s.live))
  }

  /** The target has just been cleared; `UpdateOwner` is called on a node, so there has to be one. */
  predicate MoveInFits(s: State, h: nat, from: nat)
    requires h in s.cells
  {
    && s.cells[h].raw.Null? && from != h && from in s.cells && s.cells[from].pc.Idle?
    && (IsValid(s.cells[from].raw) ==> s.cells[from].node.Some?)
  }

  function AllocateNode(s: State, h: nat, node: Node): State
    requires h in s.cells
  {
    s.(live := s.live[node := h], cells := s.cells[h := s.cells[h].(allocs := s.cells[h].allocs + 1)])
  }

  /** `AssignSafe`, which the caller runs under the lock. */
  function AssignSafe(s: State, h: nat, ptr: Ptr, slot: nat): State
    requires h in s.cells && SafeAssignFits(s, h, ptr, slot)
  {
    var c := s.cells[h];
    var ops := c.ops + [Assigned(ptr)];
    if IsValid(c.raw) && IsValid(ptr) && c.raw.heap == ptr.heap then
      s.(cells := s.cells[h := c.(raw := ptr, ops := ops)])
    else
      var t := if IsValid(c.raw) then FreeNode(s, h) else s;
      if IsValid(ptr) then
        var node := Node(ptr.heap, slot);
        var u := AllocateNode(t, h, node);
        u.(cells := u.cells[h := u.cells[h].(raw := ptr, node := Some(node), ops := ops)])
      else
        t.(cells := t.cells[h := t.cells[h].(raw := ptr,
                                             node := if IsValid(c.raw) then None else c.node, ops := ops)])
  }

  /** The locked section of a move assignment: both fields are copied, then, if the value is an object, its node gets
      the new owner and the other handle is left null. */
  function MoveFields(s: State, h: nat, from: nat): State
    requires h in s.cells && MoveInFits(s, h, from)
  {
    var c, d := s.cells[h], s.cells[from];
    var taken := c.(raw := d.raw, node := d.node, ops := c.ops + [Assigned(d.raw)]);
    if !IsValid(d.raw) then s.(cells := s.cells[h := taken])
    else
      var left := d.(raw := Null, node := None, ops := d.ops + [Assigned(Null)], moved := d.moved - 1);
      s.(live := s.live[d.node.value := h], cells := s.cells[h := taken.(moved := c.moved + 1)][from := left])
  }

  function Go(s: State, h: nat, pc: Pc): State
    requires h in s.cells
  {
    s.(cells := s.cells[h := s.cells[h].(pc := pc)])
  }

  function SetRaw(s: State, h: nat, ptr: Ptr): State
    requires h in s.cells
  {
    s.(cells := s.cells[h := s.cells[h].(raw := ptr, ops := s.cells[h].ops + [Assigned(ptr)])])
  }

  function Apply(s: State, a: Action): State
    requires Enabled(s, a)
  {
    if GcAction(a) then GcApply(s, a)
    else if a.Construct? then
      s.(cells := s.cells[a.h := Cell(a.ptr, None, if IsValid(a.ptr) then LockingNew(a.ptr) else Idle,
                                      [Assigned(a.ptr)], 0, 0, 0)])
    else MutatorApply(s, a)
  }

  function MutatorApply(s: State, a: Action): State
    requires !GcAction(a) && !a.Construct? && a.h in s.cells && MutatorEnabled(s, a)
  {
    var c := s.cells[a.h];
    match a
    case BeginAssign(h, ptr) => Go(s, h, if IsValid(c.raw) then Locking(Assign(ptr)) else Writing(ptr))
    case SafeAssign(h, ptr, slot) => AssignSafe(s, h, ptr, slot)
    case MoveIn(h, from) => MoveFields(s, h, from)
    case BeginDestroy(h) => Go(s, h, if c.node.Some? then Locking(Destroy) else Gone)
    case TakeLock(h) => Go(s, h, if c.pc.Locking? then Rechecking(c.pc.goal) else Allocating(c.pc.ptr)).(lock := Mutator(h))
    case Recheck(h) =>
      Go(s, h, var goal := c.pc.goal;
               if !IsValid(c.raw) then Unlocking(goal)
               else if goal.Assign? && IsValid(goal.ptr) && goal.ptr.heap == c.raw.heap then Keeping(goal.ptr)
               else Freeing(goal))
    case Keep(h) => Go(SetRaw(s, h, c.pc.ptr), h, Finishing)
    case FreeOwn(h) => Go(FreeNode(s, h), h, Unlinking(c.pc.goal))
    case Unlink(h) => s.(cells := s.cells[h := c.(node := None, pc := Unlocking(c.pc.goal))])
    case Unlock(h) =>
      Go(s, h, if c.pc.Finishing? then Idle else if c.pc.goal.Assign? then Writing(c.pc.goal.ptr) else Gone).(lock := Free)
    case Write(h) => Go(SetRaw(s, h, c.pc.ptr), h, if IsValid(c.pc.ptr) then LockingNew(c.pc.ptr) else Idle)
    case Allocate(h, slot) =>
      var node := Node(c.pc.ptr.heap, slot);
      Go(AllocateNode(s, h, node), h, Linking(c.pc.ptr, node))
    case Link(h) => s.(cells := s.cells[h := c.(node := Some(c.pc.made), pc := Finishing)])
  }

  ghost predicate Path(s: State, actions: seq<Action>, t: State)
    decreases |actions|
  {
    if actions == [] then s == t
    else Enabled(s, actions[0]) && Path(Apply(s, actions[0]), actions[1..], t)
  }

  ghost predicate Reachable(s: State) {
    exists start: State, actions: seq<Action> :: Init(start) && Path(start, actions, s)
  }
}
