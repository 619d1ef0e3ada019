/**
  The handles of cross-thread-persistent.h as objects: what each operation does to the handle, to the handle it
  copies or moves from, and to the regions, when nothing interferes between its steps.
 */
module Handles {
  import opened Common
  import opened HandleProtocol

  /** The persistent regions of all heaps: the nodes in use and the handles that they name. */
  class Regions {
    var live: map<Node, CrossThreadPersistent>
    var next: nat

    constructor ()
      ensures live == map[] && Agree(this, {})
    {
      live, next := map[], 0;
    }

    /** `GetPersistentRegion(ptr).AllocateNode(owner)`: some node of that heap that is not in use. */
    method AllocateNode(heap: nat, owner: CrossThreadPersistent) returns (node: Node)
      requires forall x :: x in live ==> x.slot < next
      modifies this
      ensures node.heap == heap && node !in old(live) && live == old(live)[node := owner]
      ensures forall x :: x in live ==> x.slot < next
    {
      node := Node(heap, next);
      live := live[node := owner];
      next := next + 1;
    }

    /** `FreeNode`; the node must be in use. */
    method FreeNode(node: Node)
      requires node in live
      modifies this
      ensures live == old(live) - {node} && next == old(next)
    {
      live := live - {node};
    }
  }

  /** Handles and regions agree: a handle has a node exactly when it points to an object, that node is in use in the
      object's region and names the handle, and every node in use is the node of one of the handles. */
  ghost predicate Agree(r: Regions, hs: set<CrossThreadPersistent>)
    reads r, hs
  {
    && (forall h :: h in hs ==> (IsValid(h.raw) <==> h.node.Some?))
    && (forall h :: h in hs && h.node.Some? ==>
          h.node.value in r.live && r.live[h.node.value] == h && h.node.value.heap == h.raw.heap)
    && (forall x :: x in r.live ==> r.live[x] in hs && r.live[x].node == Some(x) && x.slot < r.next)
  }

  /** No two handles share a node. */
  lemma NoSharing(r: Regions, hs: set<CrossThreadPersistent>, g: CrossThreadPersistent, h: CrossThreadPersistent)
    requires Agree(r, hs) && g in hs && h in hs && g.node.Some? && g.node == h.node
    ensures g == h
  {
  }

  class CrossThreadPersistent {
    var raw: Ptr
    var node: Option<Node>

    /** The constructors from a null pointer, the sentinel and a raw pointer. */
    constructor (ptr: Ptr, r: Regions, ghost hs: set<CrossThreadPersistent>)
      requires Agree(r, hs)
      modifies r
      ensures raw == ptr && Agree(r, hs + {this})
      ensures r.live == WithNode(old(r.live), node, this)
    {
      raw, node := ptr, None;
      new;
      if !IsValid(ptr) { return; }
      var n := r.AllocateNode(ptr.heap, this);
      node := Some(n);
    }

    /** `AssignSafe`: keeps the node when the region stays the same, and otherwise frees and allocates. */
    method AssignSafe(ptr: Ptr, r: Regions, ghost hs: set<CrossThreadPersistent>)
      requires this in hs && Agree(r, hs)
      modifies this, r
      ensures raw == ptr && Agree(r, hs)
      ensures r.live == WithNode(WithoutNode(old(r.live), old(node)), node, this)
      ensures SameRegion(old(raw), ptr) ==> node == old(node)
    {
      if IsValid(raw) {
        if IsValid(ptr) && raw.heap == ptr.heap {
          raw := ptr;
          return;
        }
        r.FreeNode(node.value);
        node := None;
      }
      raw := ptr;
      if !IsValid(ptr) { return; }
      var n := r.AllocateNode(ptr.heap, this);
      node := Some(n);
    }

    /** `AssignUnsafe`, when nothing falls between its two locked sections: it does what `AssignSafe` does. */
    method AssignUnsafe(ptr: Ptr, r: Regions, ghost hs: set<CrossThreadPersistent>)
      requires this in hs && Agree(r, hs)
      modifies this, r
      ensures raw == ptr && Agree(r, hs)
      ensures r.live == WithNode(WithoutNode(old(r.live), old(node)), node, this)
      ensures SameRegion(old(raw), ptr) ==> node == old(node)
    {
      var oldValue := raw;
      if IsValid(oldValue) {
        oldValue := raw;
        if IsValid(oldValue) {
          if IsValid(ptr) && oldValue.heap == ptr.heap {
            raw := ptr;
            return;
          }
          r.FreeNode(node.value);
          node := None;
        }
      }
      raw := ptr;
      if !IsValid(ptr) { return; }
      var n := r.AllocateNode(ptr.heap, this);
      node := Some(n);
    }

    method Clear(r: Regions, ghost hs: set<CrossThreadPersistent>)
      requires this in hs && Agree(r, hs)
      modifies this, r
      ensures raw == Null && node == None && Agree(r, hs)
      ensures r.live == WithoutNode(old(r.live), old(node))
    {
      AssignSafe(Null, r, hs);
    }

    method Release(r: Regions, ghost hs: set<CrossThreadPersistent>) returns (result: Ptr)
      requires this in hs && Agree(r, hs)
      modifies this, r
      ensures result == old(raw) && raw == Null && node == None && Agree(r, hs)
      ensures r.live == WithoutNode(old(r.live), old(node))
    {
      result := raw;
      Clear(r, hs);
    }

    /** Copy assignment: the copied handle keeps its value and its node. */
    method CopyFrom(other: CrossThreadPersistent, r: Regions, ghost hs: set<CrossThreadPersistent>)
      requires this in hs && other in hs && Agree(r, hs)
      modifies this, r
      ensures raw == old(other.raw) && Agree(r, hs)
      ensures other.raw == old(other.raw) && other.node == old(other.node)
      ensures r.live == WithNode(WithoutNode(old(r.live), old(node)), node, this)
    {
      AssignSafe(other.raw, r, hs);
    }

    /** Move assignment: the node changes its owner and the other handle is left null. A moved-from sentinel stays. */
    method MoveFrom(other: CrossThreadPersistent, r: Regions, ghost hs: set<CrossThreadPersistent>)
      requires this in hs && other in hs && Agree(r, hs)
      modifies this, other, r
      ensures Agree(r, hs)
      ensures raw == old(other.raw) && node == old(other.node)
      ensures this == other ==> r.live == old(r.live)
      ensures this != other ==>
                && other.node == None && other.raw == (if IsValid(old(other.raw)) then Null else old(other.raw))
                && r.live == WithNode(WithoutNode(old(r.live), old(node)), node, this)
    {
      if this == other { return; }
      Clear(r, hs);
      raw, node := other.raw, other.node;
      if !IsValid(raw) { return; }
      r.live := r.live[node.value := this];
      other.raw := Null;
      other.node := None;
    }

    /** The destructor: the node is freed, the value may stay behind. */
    method Destroy(r: Regions, ghost hs: set<CrossThreadPersistent>)
      requires this in hs && Agree(r, hs)
      modifies this, r
      ensures node == None && raw == old(raw) && Agree(r, hs - {this})
      ensures r.live == WithoutNode(old(r.live), old(node))
    {
      if node.Some? {
        var oldValue := raw;
        if IsValid(oldValue) {
          r.FreeNode(node.value);
          node := None;
        }
      }
    }

    /** The collector's clear. */
    method ClearFromGC(r: Regions, ghost hs: set<CrossThreadPersistent>)
      requires this in hs && Agree(r, hs)
      modifies this, r
      ensures raw == (if IsValid(old(raw)) then Null else old(raw)) && node == None && Agree(r, hs)
      ensures r.live == WithoutNode(old(r.live), old(node))
    {
      if IsValid(raw) {
        r.FreeNode(node.value);
        raw := Null;
        node := None;
      }
    }
  }
}
