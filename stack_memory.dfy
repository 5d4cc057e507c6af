/**
 * StackMemory: the move-only owner of the heap buffer that backs the stack of
 * a cloned process, and the free store it allocates from.
 *
 * Addresses are natural numbers and 0 is the null pointer. The free store's
 * bookkeeping (which blocks are live, which were freed, which StackMemory holds
 * each block) is ghost state: it exists to state and prove that a buffer has at
 * most one owner and is freed exactly once.
 */
module StackAlloc {
  /** The stack size the default constructor allocates. */
  const DefaultStackSize: nat := 65536

  const Null: nat := 0

  /** The free store behind `new char[]` and `delete[]`. Addresses are never reused. */
  class FreeStore {
    /** The lowest address not yet handed out. */
    var next: nat
    /** Base address to length, for every block allocated and not yet freed. */
    ghost var live: map<nat, nat>
    /** The base addresses passed to a non-null `delete[]`, in order. */
    ghost var freed: seq<nat>
    /** The StackMemory that holds each block it owns. */
    ghost var owner: map<nat, StackMemory>

    ghost predicate Valid()
      reads this, owner.Values
    {
      Layout() && Owners()
    }

    /** Live blocks lie below `next` and do not overlap; freed blocks were allocated, are not live, and were freed once. */
    ghost predicate Layout()
      reads this`next, this`live, this`freed
    {
      0 < next
      && (forall p :: p in live ==> 0 < p && p + live[p] < next)
      && (forall p, q :: p in live && q in live && p < q ==> p + live[p] < q)
      && (forall i :: 0 <= i < |freed| ==> 0 < freed[i] < next && freed[i] !in live)
      && (forall i, j :: 0 <= i < j < |freed| ==> freed[i] != freed[j])
    }

    /** Each owned block is live and its owner records it, with its length, as its own buffer. */
    ghost predicate Owners()
      reads this`owner, this`live, owner.Values
    {
      owner.Keys <= live.Keys
      && (forall p :: p in owner ==>
            owner[p].stack == p && owner[p].size == live[p] && owner[p].store == this && !owner[p].destroyed)
    }

    /** Every live block has an owner: nothing has leaked. */
    ghost predicate NoLeak()
      reads this
    {
      live.Keys == owner.Keys
    }

    constructor ()
      ensures Valid() && NoLeak()
      ensures live == map[] && freed == [] && owner == map[]
    {
      next := 1;
      live := map[];
      freed := [];
      owner := map[];
    }

    /** `new char[size]`: a fresh, non-null block that overlaps no live block. */
    method New(size: nat) returns (p: nat)
      requires Valid()
      modifies this
      ensures Valid()
      ensures p != Null && p !in old(live) && p !in old(freed)
      ensures live == old(live)[p := size] && freed == old(freed) && owner == old(owner)
    {
      p := next;
      next := next + size + 1;
      live := live[p := size];
    }

    /** `delete[] p`: a no-op on null; otherwise `p` must be live, and it is freed. */
    method Delete(p: nat)
      requires Valid()
      requires p == Null || p in live
      modifies this
      ensures Valid()
      ensures p == Null ==> live == old(live) && freed == old(freed) && owner == old(owner)
      ensures p != Null ==>
        live == old(live) - {p} && freed == old(freed) + [p] && owner == old(owner) - {p}
      ensures next == old(next)
      ensures old(NoLeak()) ==> NoLeak()
    {
      if p != Null {
        live := live - {p};
        freed := freed + [p];
        owner := owner - {p};
      }
    }
  }

  class StackMemory {
    var size: nat
    /** The owned buffer's base address, or Null once moved from. */
    var stack: nat
    const store: FreeStore
    /** Set when the destructor has run. */
    ghost var destroyed: bool

    ghost predicate Valid()
      reads this, store, store.owner.Values
    {
      store.Valid() && !destroyed
      && (stack == Null ==> size == 0)
      && (stack != Null ==> stack in store.owner && store.owner[stack] == this)
    }

    /** `StackMemory(size = 65536)`: allocates a buffer of `size` bytes and owns it. */
    constructor (s: FreeStore, size: nat := DefaultStackSize)
      requires s.Valid()
      modifies s
      ensures Valid() && store == s
      ensures this.size == size && stack != Null && stack !in old(s.live) && stack !in old(s.freed)
      ensures s.live == old(s.live)[stack := size] && s.freed == old(s.freed)
      ensures s.owner == old(s.owner)[stack := this]
      ensures old(s.NoLeak()) ==> s.NoLeak()
    {
      store := s;
      this.size := size;
      destroyed := false;
      var p := s.New(size);
      stack := p;
      new;
      s.owner := s.owner[stack := this];
    }

    /** The move constructor: takes the source's size and buffer and leaves the source empty. */
    constructor Moved(other: StackMemory)
      requires other.Valid()
      modifies other, other.store
      ensures Valid() && other.Valid() && store == other.store
      ensures size == old(other.size) && stack == old(other.stack)
      ensures other.stack == Null && other.size == 0
      ensures store.live == old(other.store.live) && store.freed == old(other.store.freed)
      ensures store.owner == if stack == Null then old(other.store.owner) else old(other.store.owner)[stack := this]
      ensures old(other.store.NoLeak()) ==> store.NoLeak()
    {
      store := other.store;
      size := 0;
      stack := Null;
      destroyed := false;
      new;
      Take(other);
    }

    /**
     * Move assignment: unless `other` is this object, free the current buffer,
     * take `other`'s size and buffer, and leave `other` empty.
     */
    method MoveAssign(other: StackMemory)
      requires Valid() && other.Valid() && other.store == store
      modifies this, other, store
      ensures Valid() && other.Valid()
      ensures other == this ==>
        size == old(size) && stack == old(stack)
        && store.live == old(store.live) && store.freed == old(store.freed) && store.owner == old(store.owner)
      ensures other != this ==>
        size == old(other.size) && stack == old(other.stack) && other.stack == Null && other.size == 0
      ensures other != this && old(stack) != Null ==>
        store.live == old(store.live) - {old(stack)} && store.freed == old(store.freed) + [old(stack)]
      ensures other != this && old(stack) == Null ==>
        store.live == old(store.live) && store.freed == old(store.freed)
      ensures other != this ==>
        store.owner == if stack == Null then old(store.owner) - {old(stack)}
                       else (old(store.owner) - {old(stack)})[stack := this]
      ensures old(store.NoLeak()) ==> store.NoLeak()
    {
      if this != other {
        store.Delete(stack);
        Take(other);
      }
    }

    /**
     * The second half of move assignment, once the old buffer is freed: copy
     * `other`'s size and buffer and empty `other`.
     */
    method Take(other: StackMemory)
      requires store.Valid() && !destroyed && other.Valid() && other.store == store && other != this
      requires forall p :: p in store.owner ==> store.owner[p] != this
      modifies this`size, this`stack, other`size, other`stack, store`owner
      ensures Valid() && other.Valid()
      ensures size == old(other.size) && stack == old(other.stack) && other.stack == Null && other.size == 0
      ensures store.owner == if stack == Null then old(store.owner) else old(store.owner)[stack := this]
      ensures old(store.NoLeak()) ==> store.NoLeak()
    {
      size := other.size;
      stack := other.stack;
      other.stack := Null;
      other.size := 0;
      if stack != Null {
        store.owner := store.owner[stack := this];
      }
    }

    /** The destructor: `delete[]` of the buffer, a no-op when moved from. */
    method Destroy()
      requires Valid()
      modifies this, store
      ensures destroyed && store.Valid() && stack == old(stack) && size == old(size)
      ensures old(stack) != Null ==>
        store.live == old(store.live) - {old(stack)} && store.freed == old(store.freed) + [old(stack)]
      ensures old(stack) == Null ==> store.live == old(store.live) && store.freed == old(store.freed)
      ensures store.owner == old(store.owner) - {old(stack)}
      ensures old(store.NoLeak()) ==> store.NoLeak()
    {
      store.Delete(stack);
      destroyed := true;
    }

    /** `top()`: one past the end of the owned buffer; null for a moved-from object. */
    function Top(): (t: nat)
      reads this, store, store.owner.Values
      requires Valid()
      ensures stack == Null ==> t == Null
      ensures stack != Null ==> stack in store.live && t == stack + store.live[stack]
    {
      stack + size
    }
  }

  /** Copying is deleted, so two distinct objects never hold the same live buffer. */
  lemma UniqueOwnership(a: StackMemory, b: StackMemory)
    requires a.Valid() && b.Valid() && a.store == b.store && a != b
    requires a.stack != Null
    ensures a.stack != b.stack
  {
  }

  /** The buffers of two valid objects never overlap. */
  lemma BuffersDisjoint(a: StackMemory, b: StackMemory)
    requires a.Valid() && b.Valid() && a.store == b.store && a != b
    requires a.stack != Null && b.stack != Null
    ensures a.stack + a.size <= b.stack || b.stack + b.size <= a.stack
  {
    UniqueOwnership(a, b);
  }

  /**
   * The stack's life in clone_process: allocate the default size and pass
   * top() to clone. When clone and waitpid both succeed, the buffer is freed
   * at scope exit. When either fails, the process calls exit(), which runs no
   * destructor of a local object: `exited` is set and the buffer stays live and
   * owned by the object.
   */
  method CloneProcessStack(s: FreeStore, cloneOk: bool, waitOk: bool) returns (top: nat, exited: bool)
    requires s.Valid()
    modifies s
    ensures s.Valid()
    ensures exited == !(cloneOk && waitOk)
    ensures top >= DefaultStackSize && top - DefaultStackSize !in old(s.live)
    ensures !exited ==>
      s.live == old(s.live) && s.owner == old(s.owner)
      && s.freed == old(s.freed) + [top - DefaultStackSize]
    ensures exited ==>
      s.live == old(s.live)[top - DefaultStackSize := DefaultStackSize] && s.freed == old(s.freed)
      && s.owner.Keys == old(s.owner).Keys + {top - DefaultStackSize}
    ensures old(s.NoLeak()) ==> s.NoLeak()
  {
    ghost var live0, owner0 := s.live, s.owner;
    var stack := new StackMemory(s);
    ghost var p := stack.stack;
    assert p !in owner0;
    top := stack.Top();
    // clone(function, top, flags, arg) runs here and does not touch the object.
    if !cloneOk {
      return top, true;
    }
    // waitpid(pid) runs here and does not touch the object.
    if !waitOk {
      return top, true;
    }
    stack.Destroy();
    assert s.live == live0[p := DefaultStackSize] - {p} == live0;
    assert s.owner == owner0[p := stack] - {p} == owner0;
    exited := false;
  }
}
