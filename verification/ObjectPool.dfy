/** Objects on top of the debug-checked pool, and the move-only handles that own them. */
module ObjectPool {
  import opened MemoryPool

  ghost predicate HasId(live: map<nat, nat>, id: nat) {
    exists p :: p in live && live[p] == id
  }

  /** Every object created so far is either live at one address or has been destroyed once, not both. */
  ghost predicate Ledger(live: map<nat, nat>, destroyed: multiset<nat>, created: nat) {
    && (forall p, q :: p in live && q in live && live[p] == live[q] ==> p == q)
    && (forall p :: p in live ==> live[p] < created && live[p] !in destroyed)
    && (forall id :: id in destroyed ==> id < created && destroyed[id] == 1)
    && (forall id: nat :: id < created && id !in destroyed ==> HasId(live, id))
  }

  /** The destructions on record once the object at `p`, if there is one, has been destroyed. */
  ghost function Destruction(live: map<nat, nat>, destroyed: multiset<nat>, p: nat): multiset<nat> {
    if p in live then destroyed + multiset{live[p]} else destroyed
  }

  lemma LedgerCreate(live: map<nat, nat>, destroyed: multiset<nat>, created: nat, obj: nat)
    requires Ledger(live, destroyed, created) && obj !in live
    ensures Ledger(live[obj := created], destroyed, created + 1)
  {
    var live' := live[obj := created];
    forall id: nat | id < created + 1 && id !in destroyed ensures HasId(live', id) {
      if id < created {
        assert HasId(live, id);
        var p :| p in live && live[p] == id;
        assert live'[p] == id;
      } else {
        assert live'[obj] == id;
      }
    }
  }

  lemma LedgerDestroy(live: map<nat, nat>, destroyed: multiset<nat>, created: nat, obj: nat)
    requires Ledger(live, destroyed, created) && obj in live
    ensures live[obj] !in destroyed && Ledger(live - {obj}, Destruction(live, destroyed, obj), created)
  {
    var live', destroyed' := live - {obj}, Destruction(live, destroyed, obj);
    forall id: nat | id < created && id !in destroyed' ensures HasId(live', id) {
      assert HasId(live, id);
      var p :| p in live && live[p] == id;
      assert live'[p] == id;
    }
  }

  class ObjectPoolSafe {
    const pool: MemoryPoolSafe
    ghost var live: map<nat, nat>          // address of each live object, with its creation number
    ghost var destroyed: multiset<nat>     // creation numbers of the objects destroyed, as often as they were
    ghost var created: nat
    ghost var owner: map<nat, PooledPtr>   // the handle that owns an address, for those that have one

    ghost predicate Valid()
      reads this, pool, owner.Values
    {
      && pool.Valid() && live.Keys == pool.outstanding && NULL !in live
      && Ledger(live, destroyed, created)
      && owner.Keys <= live.Keys
      && forall p :: p in owner ==> owner[p].ptr == p && owner[p].pool == this
    }

    constructor (pool: MemoryPoolSafe)
      requires pool.Valid() && pool.outstanding == {}
      ensures Valid() && live == map[] && destroyed == multiset{} && created == 0 && owner == map[] && this.pool == pool
    {
      this.pool := pool;
      live, destroyed, created, owner := map[], multiset{}, 0, map[];
    }

    method Create(raw: nat) returns (obj: nat)
      requires Valid() && (pool.freeList == NULL ==> Fresh(pool.ly, pool.chunks, raw))
      modifies this, pool
      ensures Valid() && obj != NULL && obj !in old(live)
      ensures live == old(live)[obj := old(created)] && created == old(created) + 1
      ensures destroyed == old(destroyed) && owner == old(owner)
    {
      hide Ledger, Partition, Linked, ChunksValid, History, IsBlock, Layout.Valid;
      obj := pool.Allocate(raw);
      LedgerCreate(live, destroyed, created, obj);
      live, created := live[obj := created], created + 1;
    }

    /** The destructor call and the return of the storage. The pool never throws on a live object. */
    method Destroy(obj: nat) returns (outcome: Outcome)
      requires Valid() && (obj == NULL || obj in live)
      modifies this, pool
      ensures Valid() && outcome == Done && created == old(created)
      ensures live == old(live) - {obj} && owner == old(owner) - {obj}
      ensures destroyed == Destruction(old(live), old(destroyed), obj)
    {
      hide Ledger, Partition, Linked, ChunksValid, History, IsBlock, Layout.Valid;
      if obj == NULL {
        return Done;
      }
      LedgerDestroy(live, destroyed, created, obj);
      destroyed, live, owner := Destruction(live, destroyed, obj), live - {obj}, owner - {obj};
      outcome := pool.Deallocate(obj);
    }

    method CreateHandle(raw: nat) returns (handle: PooledPtr)
      requires Valid() && (pool.freeList == NULL ==> Fresh(pool.ly, pool.chunks, raw))
      modifies this, pool
      ensures Valid() && fresh(handle) && handle.Sound() && handle.pool == this && handle.ptr !in old(live)
      ensures live == old(live)[handle.ptr := old(created)] && owner == old(owner)[handle.ptr := handle]
      ensures created == old(created) + 1 && destroyed == old(destroyed)
    {
      var obj := Create(raw);
      handle := new PooledPtr.Adopting(this, obj);
    }

    /** Nothing live means every object ever created has been destroyed, each exactly once. */
    lemma AllDestroyed()
      requires Valid() && live == map[]
      ensures forall id: nat :: destroyed[id] == if id < created then 1 else 0
    {
    }
  }

  /** Who owns what after the object at `p`, if any, has passed to `handle`. */
  ghost function Owning(owner: map<nat, PooledPtr>, p: nat, handle: PooledPtr): map<nat, PooledPtr> {
    if p == NULL then owner else owner[p := handle]
  }

  /** A move-only handle. */
  class PooledPtr {
    var pool: ObjectPoolSafe?
    var ptr: nat

    /** A handle that refers to an object is the one owner of it, and the object is live. */
    ghost predicate Sound()
      reads this, pool, if pool != null then {pool.pool} + pool.owner.Values else {}
    {
      pool != null ==> pool.Valid() && (ptr != NULL ==> ptr in pool.owner && pool.owner[ptr] == this)
    }

    constructor ()
      ensures pool == null && ptr == NULL && Sound()
    {
      pool, ptr := null, NULL;
    }

    constructor Adopting(pool: ObjectPoolSafe, ptr: nat)
      requires pool.Valid() && ptr in pool.live && ptr !in pool.owner
      modifies pool`owner
      ensures this.pool == pool && this.ptr == ptr && Sound()
      ensures pool.owner == old(pool.owner)[ptr := this]
    {
      this.pool, this.ptr := pool, ptr;
      new;
      hide Ledger, MemoryPoolSafe.Valid;
      pool.owner := pool.owner[ptr := this];
    }

    /** The destructor. */
    method Release()
      requires Sound()
      modifies this, pool, if pool != null then {pool.pool} else {}
      ensures Sound() && pool == old(pool) && ptr == if pool != null then NULL else old(ptr)
      ensures pool != null ==>
                && pool.live == old(pool.live) - {old(ptr)} && pool.owner == old(pool.owner) - {old(ptr)}
                && pool.destroyed == Destruction(old(pool.live), old(pool.destroyed), old(ptr))
                && pool.created == old(pool.created)
    {
      hide Ledger, MemoryPoolSafe.Valid;
      if pool != null && ptr != NULL {
        var outcome := pool.Destroy(ptr);
        assert outcome == Done;
        ptr := NULL;
      }
    }

    /** The move constructor: the source lets go, nothing is destroyed. */
    constructor MovedFrom(other: PooledPtr)
      requires other.Sound()
      modifies other, (if other.pool != null then {other.pool} else {})`owner
      ensures pool == old(other.pool) && ptr == old(other.ptr) && Sound()
      ensures other.pool == null && other.ptr == NULL && other.Sound()
      ensures pool != null ==> pool.owner == Owning(old(other.pool.owner), ptr, this)
    {
      pool, ptr := null, NULL;
      new;
      hide Ledger, MemoryPoolSafe.Valid;
      Take(other);
    }

    /** Move assignment: the handle's own object is destroyed, the source's changes owner. */
    method MoveAssign(other: PooledPtr)
      requires Sound() && other.Sound()
      requires pool != null && other.pool != null && pool != other.pool ==> pool.pool != other.pool.pool
      modifies this, other, pool, (if other.pool != null then {other.pool} else {})`owner, if pool != null then {pool.pool} else {}
      ensures Sound() && other.Sound()
      ensures this == other ==> unchanged(this) && (pool != null ==> unchanged(pool) && unchanged(pool.pool))
      ensures this != other ==> pool == old(other.pool) && ptr == old(other.ptr) && other.pool == null && other.ptr == NULL
      ensures this != other && old(pool) != null ==>
                && old(pool).Valid() && old(pool).created == old(pool.created)
                && old(pool).live == old(pool.live) - {old(ptr)}
                && old(pool).destroyed == Destruction(old(pool.live), old(pool.destroyed), old(ptr))
      ensures this != other && old(pool) != null && pool != old(pool) ==> old(pool).owner == old(pool.owner) - {old(ptr)}
      ensures this != other && pool != null ==>
                pool.owner == Owning(if pool == old(pool) then old(pool.owner) - {old(ptr)} else old(other.pool.owner), ptr, this)
    {
      hide Ledger, MemoryPoolSafe.Valid, ObjectPoolSafe.Valid, Destruction, Owning;
      if this != other {
        ReleaseBefore(other);
        Take(other);
      }
    }

    /** The first half of a move assignment: the own object goes, `other` keeps what it owns. */
    method ReleaseBefore(other: PooledPtr)
      requires this != other && Sound() && other.Sound()
      requires pool != null && other.pool != null && pool != other.pool ==> pool.pool != other.pool.pool
      modifies this, pool, if pool != null then {pool.pool} else {}
      ensures Sound() && other.Sound() && pool == old(pool) && (pool != null ==> ptr == NULL)
      ensures pool != null ==>
                && pool.live == old(pool.live) - {old(ptr)} && pool.owner == old(pool.owner) - {old(ptr)}
                && pool.destroyed == Destruction(old(pool.live), old(pool.destroyed), old(ptr))
                && pool.created == old(pool.created)
      ensures pool != null ==> this !in pool.owner.Values && (other.pool != pool ==> other !in pool.owner.Values)
      ensures other.pool != null ==> this !in other.pool.owner.Values
    {
      hide Ledger, MemoryPoolSafe.Valid;
      NotElsewhere(other.pool);
      other.NotElsewhere(pool);
      Release();
    }

    /** A handle is registered with no pool but its own. */
    lemma NotElsewhere(elsewhere: ObjectPoolSafe?)
      requires elsewhere != null && elsewhere != pool ==> elsewhere.Valid()
      ensures elsewhere != null && elsewhere != pool ==> this !in elsewhere.owner.Values
    {
    }

    /** The second half of a move: `other` gives up what it owns to this handle, which owns nothing. */
    method Take(other: PooledPtr)
      requires this != other && (pool != null ==> ptr == NULL) && other.Sound()
      requires other.pool != null ==> this !in other.pool.owner.Values
      modifies this, other, (if other.pool != null then {other.pool} else {})`owner
      ensures Sound() && pool == old(other.pool) && ptr == old(other.ptr)
      ensures other.pool == null && other.ptr == NULL
      ensures pool != null ==> pool.owner == Owning(old(other.pool.owner), ptr, this)
    {
      hide Ledger, MemoryPoolSafe.Valid;
      pool, ptr := other.pool, other.ptr;
      other.pool, other.ptr := null, NULL;
      if pool != null && ptr != NULL {
        pool.owner := pool.owner[ptr := this];
      }
    }
  }
}
