/** Any number of handles on any number of pools, and what each operation does to all of them. */
module HandleRuns {
  import opened MemoryPool
  import opened ObjectPool
  import opened Wrappers

  /** An object: the pool it lives in and its creation number there. */
  datatype Object = Object(pool: ObjectPoolSafe, id: nat)

  ghost function Stores(pools: set<ObjectPoolSafe>): set<MemoryPoolSafe> {
    set p <- pools :: p.pool
  }

  /** Owned objects are live, and their owners are among the handles. */
  ghost predicate AllOwned(owner: map<nat, PooledPtr>, live: map<nat, nat>, handles: set<PooledPtr>) {
    owner.Values <= handles && owner.Keys <= live.Keys
  }

  /** The objects that no handle owns: those made by `create` and not destroyed yet. */
  ghost function Loose(pool: ObjectPoolSafe): map<nat, nat>
    reads pool
  {
    pool.live - pool.owner.Keys
  }

  /** Objects of handles other than those in `moved` keep their owner. */
  ghost predicate Spares(before: map<nat, PooledPtr>, after: map<nat, PooledPtr>, moved: set<PooledPtr>) {
    forall k :: k in before && before[k] !in moved ==> k in after && after[k] == before[k]
  }

  lemma AfterRelease(owner: map<nat, PooledPtr>, live: map<nat, nat>, handles: set<PooledPtr>, x: nat, h: PooledPtr)
    requires AllOwned(owner, live, handles) && (x in owner ==> owner[x] == h) && (x in live ==> x in owner)
    ensures AllOwned(owner - {x}, live - {x}, handles) && Spares(owner, owner - {x}, {h})
    ensures (live - {x}) - (owner - {x}).Keys == live - owner.Keys
  {
  }

  lemma AfterMove(owner: map<nat, PooledPtr>, live: map<nat, nat>, handles: set<PooledPtr>, p: nat, from: PooledPtr, to: PooledPtr)
    requires AllOwned(owner, live, handles) && (p != NULL ==> p in owner && owner[p] == from)
    ensures AllOwned(Owning(owner, p, to), live, handles + {to}) && Spares(owner, Owning(owner, p, to), {from})
    ensures live - Owning(owner, p, to).Keys == live - owner.Keys
  {
  }

  lemma AfterBoth(owner: map<nat, PooledPtr>, live: map<nat, nat>, handles: set<PooledPtr>, x: nat, p: nat, to: PooledPtr, from: PooledPtr)
    requires AllOwned(owner, live, handles) && to != from
    requires (x in owner ==> owner[x] == to) && (x in live ==> x in owner) && (p != NULL ==> p in owner && owner[p] == from)
    ensures AllOwned(Owning(owner - {x}, p, to), live - {x}, handles + {to})
    ensures Spares(owner, Owning(owner - {x}, p, to), {to, from})
    ensures (live - {x}) - Owning(owner - {x}, p, to).Keys == live - owner.Keys
  {
    AfterRelease(owner, live, handles, x, to);
    AfterMove(owner - {x}, live - {x}, handles, p, from, to);
  }

  /** The pool is intact and its owned objects belong to handles among these. */
  ghost predicate Kept(pool: ObjectPoolSafe, handles: set<PooledPtr>)
    reads pool, pool.pool, handles
  {
    AllOwned(pool.owner, pool.live, handles) && pool.Valid()
  }

  /** The handle is empty or the registered owner of the object it refers to. */
  ghost predicate Rests(handle: PooledPtr, pools: set<ObjectPoolSafe>)
    reads handle, pools
  {
    handle.pool != null ==>
      && handle.pool in pools
      && (handle.ptr != NULL ==>
            handle.ptr in handle.pool.live && handle.ptr in handle.pool.owner && handle.pool.owner[handle.ptr] == handle)
  }

  /** Pools with storage of their own, and the handles around. */
  ghost predicate World(pools: set<ObjectPoolSafe>, handles: set<PooledPtr>)
    reads pools, Stores(pools), handles
  {
    && (forall p, q :: p in pools && q in pools && p != q ==> p.pool != q.pool)
    && (forall p :: p in pools ==> Kept(p, handles))
    && (forall h :: h in handles ==> Rests(h, pools))
  }

  /** In such a world every handle is sound. */
  lemma AllSound(pools: set<ObjectPoolSafe>, handles: set<PooledPtr>, h: PooledPtr)
    requires World(pools, handles) && h in handles
    ensures Rests(h, pools) && h.Sound() && (h.pool != null ==> NULL !in h.pool.owner && NULL !in h.pool.live)
    ensures forall p :: p in pools && p != h.pool ==> h !in p.owner.Values
  {
    hide Ledger, MemoryPoolSafe.Valid;
    assert Rests(h, pools);
    forall p | p in pools && p != h.pool ensures h !in p.owner.Values {
      assert Kept(p, handles);
      h.NotElsewhere(p);
    }
  }

  /** The object a handle refers to. */
  ghost function Holding(handle: PooledPtr): Option<Object>
    reads handle, handle.pool
  {
    if handle.pool != null && handle.ptr != NULL && handle.ptr in handle.pool.live
    then Some(Object(handle.pool, handle.pool.live[handle.ptr])) else None
  }

  /** No two handles refer to the same object. */
  lemma SoleOwner(pools: set<ObjectPoolSafe>, handles: set<PooledPtr>, g: PooledPtr, h: PooledPtr)
    requires World(pools, handles) && g in handles && h in handles && Holding(g).Some? && Holding(g) == Holding(h)
    ensures g == h
  {
    hide MemoryPoolSafe.Valid;
    AllSound(pools, handles, g);
    AllSound(pools, handles, h);
  }

  /** What the end of `what` adds to the destructions of a pool. */
  ghost function Ended(pool: ObjectPoolSafe, what: Option<Object>): multiset<nat> {
    if what.Some? && what.value.pool == pool then multiset{what.value.id} else multiset{}
  }

  // ---------------------------------------------------------------- one operation

  /** Move assignment, self-assignment included. */
  method Assign(ghost pools: set<ObjectPoolSafe>, ghost handles: set<PooledPtr>, target: PooledPtr, source: PooledPtr)
    requires World(pools, handles) && target in handles && source in handles
    modifies handles, pools, Stores(pools)
    ensures World(pools, handles)
    ensures forall h :: h in handles ==>
              Holding(h) == if h == target then old(Holding(source)) else if h == source then None else old(Holding(h))
    ensures forall p :: p in pools ==>
              && p.created == old(p.created) && Loose(p) == old(Loose(p))
              && p.destroyed == old(p.destroyed) + Ended(p, if target == source then None else old(Holding(target)))
  {
    hide World, Holding, MemoryPoolSafe.Valid, ObjectPoolSafe.Valid;
    if target == source {
      AllSound(pools, handles, target);
      target.MoveAssign(source);
    } else {
      Replace(pools, handles, target, source);
    }
  }

  /** Move assignment from another handle. */
  method Replace(ghost pools: set<ObjectPoolSafe>, ghost handles: set<PooledPtr>, target: PooledPtr, source: PooledPtr)
    requires World(pools, handles) && target in handles && source in handles && target != source
    modifies handles, pools, Stores(pools)
    ensures World(pools, handles)
    ensures forall h :: h in handles ==>
              Holding(h) == if h == target then old(Holding(source)) else if h == source then None else old(Holding(h))
    ensures forall p :: p in pools ==>
              && p.created == old(p.created) && Loose(p) == old(Loose(p))
              && p.destroyed == old(p.destroyed) + Ended(p, old(Holding(target)))
  {
    hide Kept, Owning, PooledPtr.Sound;
    AllSound(pools, handles, target);
    AllSound(pools, handles, source);
    ReplaceInPools(pools, handles, target, source);
    forall h | h in handles
      ensures Rests(h, pools)
      ensures Holding(h) == if h == target then old(Holding(source)) else if h == source then None else old(Holding(h))
    {
      assert old(Rests(h, pools));
    }
  }

  /** What it does to the pools. */
  method ReplaceInPools(ghost pools: set<ObjectPoolSafe>, ghost handles: set<PooledPtr>, target: PooledPtr, source: PooledPtr)
    requires World(pools, handles) && target in handles && source in handles && target != source
    modifies target, source, pools, Stores(pools)
    ensures target.pool == old(source.pool) && target.ptr == old(source.ptr) && source.pool == null
    ensures Rests(target, pools)
    ensures forall p :: p in pools ==>
              && Kept(p, handles) && Spares(old(p.owner), p.owner, {target, source})
              && p.live == (if p == old(target.pool) then old(p.live) - {old(target.ptr)} else old(p.live))
              && p.destroyed == (if p == old(target.pool) then Destruction(old(p.live), old(p.destroyed), old(target.ptr)) else old(p.destroyed))
              && p.created == old(p.created) && Loose(p) == old(Loose(p))
  {
    hide Ledger, MemoryPoolSafe.Valid, ObjectPoolSafe.Valid, AllOwned, Owning, Destruction;
    AllSound(pools, handles, target);
    AllSound(pools, handles, source);
    ghost var t, s, x := target.pool, source.pool, target.ptr;
    assert handles + {target} == handles;
    assert (t != null ==> Kept(t, handles)) && (s != null ==> Kept(s, handles));
    target.MoveAssign(source);
    forall p | p in pools
      ensures Kept(p, handles) && Spares(old(p.owner), p.owner, {target, source}) && Loose(p) == old(Loose(p))
    {
      assert old(Kept(p, handles));
      assert p.Valid();
      if p == t && p == s {
        AfterBoth(old(p.owner), old(p.live), handles, x, target.ptr, target, source);
      } else if p == t {
        AfterRelease(old(p.owner), old(p.live), handles, x, target);
      } else if p == s {
        AfterMove(old(p.owner), p.live, handles, target.ptr, source, target);
      }
    }
  }

  /** The end of a handle's life. */
  method Drop(ghost pools: set<ObjectPoolSafe>, ghost handles: set<PooledPtr>, handle: PooledPtr)
    requires World(pools, handles) && handle in handles
    modifies handle, pools, Stores(pools)
    ensures World(pools, handles)
    ensures forall h :: h in handles ==> Holding(h) == if h == handle then None else old(Holding(h))
    ensures forall p :: p in pools ==>
              && p.created == old(p.created) && Loose(p) == old(Loose(p))
              && p.destroyed == old(p.destroyed) + Ended(p, old(Holding(handle)))
  {
    hide Ledger, MemoryPoolSafe.Valid, ObjectPoolSafe.Valid;
    AllSound(pools, handles, handle);
    ghost var t, x := handle.pool, handle.ptr;
    assert t != null ==> Kept(t, handles);
    handle.Release();
    forall p | p in pools ensures Kept(p, handles) && Loose(p) == old(Loose(p)) {
      assert old(Kept(p, handles));
      if p == t {
        AfterRelease(old(p.owner), old(p.live), handles, x, handle);
      }
      assert p.Valid();
    }
    forall h | h in handles ensures Rests(h, pools) {
      assert old(Rests(h, pools));
    }
  }

  /** `create_handle`, with whatever chunk `::operator new` returns if one is needed. */
  method Make(ghost pools: set<ObjectPoolSafe>, ghost handles: set<PooledPtr>, pool: ObjectPoolSafe) returns (handle: PooledPtr)
    requires World(pools, handles) && pool in pools
    modifies pools, Stores(pools)
    ensures fresh(handle) && World(pools, handles + {handle})
    ensures Holding(handle) == Some(Object(pool, old(pool.created)))
    ensures forall h :: h in handles ==> Holding(h) == old(Holding(h))
    ensures forall p :: p in pools ==>
              && p.destroyed == old(p.destroyed) && Loose(p) == old(Loose(p))
              && p.created == old(p.created) + if p == pool then 1 else 0
  {
    hide Ledger, MemoryPoolSafe.Valid, ObjectPoolSafe.Valid;
    assert Kept(pool, handles);
    ghost var some := FreshExists(pool.pool.ly, pool.pool.chunks);
    var raw: nat :| pool.pool.freeList == NULL ==> Fresh(pool.pool.ly, pool.pool.chunks, raw);
    handle := pool.CreateHandle(raw);
    forall p | p in pools ensures Kept(p, handles + {handle}) && Loose(p) == old(Loose(p)) {
      assert old(Kept(p, handles));
      assert p.Valid();
    }
    forall h | h in handles ensures Rests(h, pools) {
      assert old(Rests(h, pools));
    }
  }

  /** The default constructor. */
  method MakeNone(ghost pools: set<ObjectPoolSafe>, ghost handles: set<PooledPtr>) returns (handle: PooledPtr)
    requires World(pools, handles)
    ensures fresh(handle) && World(pools, handles + {handle})
    ensures Holding(handle) == None
  {
    hide Ledger, MemoryPoolSafe.Valid, ObjectPoolSafe.Valid;
    handle := new PooledPtr();
    forall p | p in pools ensures Kept(p, handles + {handle}) {
      assert Kept(p, handles);
    }
  }

  /** The move constructor. */
  method Move(ghost pools: set<ObjectPoolSafe>, ghost handles: set<PooledPtr>, source: PooledPtr) returns (handle: PooledPtr)
    requires World(pools, handles) && source in handles
    modifies source, pools
    ensures fresh(handle) && World(pools, handles + {handle})
    ensures Holding(handle) == old(Holding(source))
    ensures forall h :: h in handles ==> Holding(h) == if h == source then None else old(Holding(h))
    ensures forall p :: p in pools ==>
              p.destroyed == old(p.destroyed) && p.created == old(p.created) && Loose(p) == old(Loose(p))
  {
    hide Ledger, MemoryPoolSafe.Valid, ObjectPoolSafe.Valid;
    AllSound(pools, handles, source);
    ghost var s := source.pool;
    assert s != null ==> Kept(s, handles);
    handle := new PooledPtr.MovedFrom(source);
    forall p | p in pools ensures Kept(p, handles + {handle}) && Loose(p) == old(Loose(p)) {
      assert old(Kept(p, handles));
      if p == s {
        AfterMove(old(p.owner), p.live, handles, handle.ptr, source, handle);
      }
      assert p.Valid();
    }
    forall h | h in handles ensures Rests(h, pools) {
      assert old(Rests(h, pools));
    }
  }

  /** `create`: an object that no handle owns. */
  method New(ghost pools: set<ObjectPoolSafe>, ghost handles: set<PooledPtr>, pool: ObjectPoolSafe) returns (obj: nat)
    requires World(pools, handles) && pool in pools
    modifies pools, Stores(pools)
    ensures World(pools, handles)
    ensures obj !in old(Loose(pool)) && Loose(pool) == old(Loose(pool))[obj := old(pool.created)]
    ensures forall h :: h in handles ==> Holding(h) == old(Holding(h))
    ensures forall p :: p in pools ==>
              && p.destroyed == old(p.destroyed) && (p != pool ==> Loose(p) == old(Loose(p)))
              && p.created == old(p.created) + if p == pool then 1 else 0
  {
    hide Ledger, MemoryPoolSafe.Valid, ObjectPoolSafe.Valid;
    assert Kept(pool, handles);
    ghost var some := FreshExists(pool.pool.ly, pool.pool.chunks);
    var raw: nat :| pool.pool.freeList == NULL ==> Fresh(pool.pool.ly, pool.pool.chunks, raw);
    obj := pool.Create(raw);
    forall p | p in pools ensures Kept(p, handles) {
      assert old(Kept(p, handles));
      assert p.Valid();
    }
    forall h | h in handles ensures Rests(h, pools) {
      assert old(Rests(h, pools));
    }
  }

  /** `destroy` of an object made so. */
  method Delete(ghost pools: set<ObjectPoolSafe>, ghost handles: set<PooledPtr>, pool: ObjectPoolSafe, obj: nat)
    requires World(pools, handles) && pool in pools && obj in Loose(pool)
    modifies pools, Stores(pools)
    ensures World(pools, handles) && Loose(pool) == old(Loose(pool)) - {obj}
    ensures forall h :: h in handles ==> Holding(h) == old(Holding(h))
    ensures forall p :: p in pools ==>
              && p.created == old(p.created) && (p != pool ==> Loose(p) == old(Loose(p)))
              && p.destroyed == old(p.destroyed) + Ended(p, Some(Object(pool, old(Loose(pool)[obj]))))
  {
    hide Ledger, MemoryPoolSafe.Valid, ObjectPoolSafe.Valid;
    assert Kept(pool, handles);
    NotNull(pool, obj);
    var outcome := pool.Destroy(obj);
    assert outcome == Done;
    forall p | p in pools ensures Kept(p, handles) {
      assert old(Kept(p, handles));
      assert p.Valid();
    }
    forall h | h in handles ensures Rests(h, pools) {
      assert old(Rests(h, pools));
    }
  }

  lemma NotNull(pool: ObjectPoolSafe, obj: nat)
    requires pool.Valid() && obj in pool.live
    ensures obj != NULL
  {
    hide Ledger, MemoryPoolSafe.Valid;
  }
}
