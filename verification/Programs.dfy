/** Whole programs over pools, handles and plain pointers: any sequence of operations does what an
    address-free model of ownership says. */
module Programs {
  import opened Counting
  import opened HandleRuns
  import opened MemoryPool
  import opened ObjectPool
  import opened Wrappers

  /** What `create` returned, in the hands of the program. */
  datatype Pointer = Pointer(pool: ObjectPoolSafe, obj: nat)

  /** An operation of a program, naming pools, handles and pointers by their position. */
  datatype Op =
    | MakeEmpty
    | MakeFrom(pool: nat)
    | MoveFrom(source: nat)
    | AssignFrom(target: nat, source: nat)
    | Destroy(handle: nat)
    | NewFrom(pool: nat)
    | DeletePointer(pointer: nat)

  /** The operation names only what there is, and so a pointer at most until it is destroyed. */
  predicate Named(op: Op, pools: nat, handles: nat, pointers: nat) {
    match op
    case MakeEmpty => true
    case MakeFrom(p) => p < pools
    case MoveFrom(s) => s < handles
    case AssignFrom(t, s) => t < handles && s < handles
    case Destroy(h) => h < handles
    case NewFrom(p) => p < pools
    case DeletePointer(i) => i < pointers
  }

  function HandlesAfter(op: Op, handles: nat): nat {
    if op.MakeEmpty? || op.MakeFrom? || op.MoveFrom? then handles + 1 else handles
  }

  function PointersAfter(op: Op, pointers: nat): int {
    if op.NewFrom? then pointers + 1 else if op.DeletePointer? then pointers - 1 else pointers
  }

  predicate AllNamed(ops: seq<Op>, pools: nat, handles: nat, pointers: nat)
    decreases |ops|
  {
    ops == [] ||
    (&& Named(ops[0], pools, handles, pointers)
     && AllNamed(ops[1..], pools, HandlesAfter(ops[0], handles), PointersAfter(ops[0], pointers)))
  }

  ghost function Elements<T>(s: seq<T>): set<T> {
    set x <- s
  }

  lemma ElementsSnoc<T>(s: seq<T>, x: T)
    ensures Elements(s + [x]) == Elements(s) + {x}
  {
  }

  function Removed<T>(s: seq<T>, i: nat): (r: seq<T>)
    requires i < |s|
    ensures |r| == |s| - 1
  {
    s[..i] + s[i + 1..]
  }

  /** Where position `k` was before position `i` was removed. */
  function Back(k: nat, i: nat): nat {
    if k < i then k else k + 1
  }

  lemma RemovedAt<T>(s: seq<T>, i: nat, k: nat)
    requires i < |s| && k < |s| - 1
    ensures Removed(s, i)[k] == s[Back(k, i)]
  {
  }

  lemma {:induction false} CountRemoved<T>(s: seq<T>, i: nat, x: T)
    requires i < |s|
    ensures Count(Removed(s, i), x) + (if s[i] == x then 1 else 0) == Count(s, x)
  {
    if i > 0 {
      CountRemoved(s[1..], i - 1, x);
      assert Removed(s, i)[1..] == Removed(s[1..], i - 1);
    } else {
      assert Removed(s, 0) == s[1..];
    }
  }

  // ---------------------------------------------------------------- the meaning of a program

  /** Which object each handle and each pointer refers to, and the counts of each pool. */
  datatype Model = Model(
    held: seq<Option<Object>>,
    loose: seq<Object>,
    created: map<ObjectPoolSafe, nat>,
    destroyed: map<ObjectPoolSafe, multiset<nat>>)

  ghost function Buried(destroyed: map<ObjectPoolSafe, multiset<nat>>, what: Option<Object>): (r: map<ObjectPoolSafe, multiset<nat>>)
    ensures r.Keys == destroyed.Keys
  {
    map p | p in destroyed :: destroyed[p] + Ended(p, what)
  }

  lemma IsBuried(before: map<ObjectPoolSafe, multiset<nat>>, after: map<ObjectPoolSafe, multiset<nat>>, what: Option<Object>)
    requires after.Keys == before.Keys && forall p :: p in before ==> after[p] == before[p] + Ended(p, what)
    ensures after == Buried(before, what)
  {
  }

  ghost function Grown(created: map<ObjectPoolSafe, nat>, pool: ObjectPoolSafe): (r: map<ObjectPoolSafe, nat>)
    requires pool in created
    ensures r.Keys == created.Keys
  {
    created[pool := created[pool] + 1]
  }

  lemma IsGrown(before: map<ObjectPoolSafe, nat>, after: map<ObjectPoolSafe, nat>, pool: ObjectPoolSafe)
    requires pool in before && after.Keys == before.Keys
    requires forall p :: p in before ==> after[p] == before[p] + if p == pool then 1 else 0
    ensures after == Grown(before, pool)
  {
  }

  lemma BuriedCount(before: map<ObjectPoolSafe, multiset<nat>>, what: Option<Object>, o: Object)
    requires o.pool in before
    ensures Buried(before, what)[o.pool][o.id] == before[o.pool][o.id] + if what == Some(o) then 1 else 0
  {
  }

  ghost predicate Covers(m: Model, pools: seq<ObjectPoolSafe>) {
    m.created.Keys == m.destroyed.Keys == Elements(pools)
  }

  /** One operation, without addresses. */
  ghost function After(pools: seq<ObjectPoolSafe>, m: Model, op: Op): (r: Model)
    requires Covers(m, pools) && Named(op, |pools|, |m.held|, |m.loose|)
    ensures Covers(r, pools) && |r.held| == HandlesAfter(op, |m.held|) && |r.loose| == PointersAfter(op, |m.loose|)
  {
    match op
    case MakeEmpty => m.(held := m.held + [None])
    case MakeFrom(k) =>
      var p := pools[k];
      m.(held := m.held + [Some(Object(p, m.created[p]))], created := Grown(m.created, p))
    case MoveFrom(source) => m.(held := m.held[source := None] + [m.held[source]])
    case AssignFrom(target, source) =>
      m.(held := m.held[target := m.held[source]][source := if target == source then m.held[source] else None],
         destroyed := Buried(m.destroyed, if target == source then None else m.held[target]))
    case Destroy(h) => m.(held := m.held[h := None], destroyed := Buried(m.destroyed, m.held[h]))
    case NewFrom(k) =>
      var p := pools[k];
      m.(loose := m.loose + [Object(p, m.created[p])], created := Grown(m.created, p))
    case DeletePointer(i) => m.(loose := Removed(m.loose, i), destroyed := Buried(m.destroyed, Some(m.loose[i])))
  }

  ghost function AfterAll(pools: seq<ObjectPoolSafe>, m: Model, ops: seq<Op>): (r: Model)
    requires Covers(m, pools) && AllNamed(ops, |pools|, |m.held|, |m.loose|)
    ensures Covers(r, pools)
    decreases |ops|
  {
    if ops == [] then m else AfterAll(pools, After(pools, m, ops[0]), ops[1..])
  }

  /** What each operation does to the handle at `i` and to the new one: objects are passed on, not copied,
      and handles not named keep theirs. */
  lemma ModelMoves(pools: seq<ObjectPoolSafe>, m: Model, op: Op, i: nat)
    requires Covers(m, pools) && Named(op, |pools|, |m.held|, |m.loose|) && i < |m.held|
    ensures var r, n := After(pools, m, op), |m.held|;
            && (r.held[i] != m.held[i] ==>
                  || (r.held[i] == None && (op == MoveFrom(i) || op == Destroy(i) || (op.AssignFrom? && op.source == i)))
                  || (op.AssignFrom? && op.target == i && r.held[i] == m.held[op.source]))
            && (op.MoveFrom? ==> r.held[op.source] == None && r.held[n] == m.held[op.source])
            && (op.AssignFrom? && op.target != op.source ==> r.held[op.target] == m.held[op.source] && r.held[op.source] == None)
            && (op.AssignFrom? && op.target == op.source ==> r.held == m.held)
            && (op.MakeFrom? ==> r.held[n] == Some(Object(pools[op.pool], m.created[pools[op.pool]])))
            && (op.MakeEmpty? ==> r.held[n] == None)
            && (op.NewFrom? || op.DeletePointer? ==> r.held == m.held)
            && (!op.NewFrom? && !op.DeletePointer? ==> r.loose == m.loose)
            && (op.DeletePointer? ==> |r.loose| == |m.loose| - 1 && forall k :: 0 <= k < |r.loose| ==> r.loose[k] == m.loose[if k < op.pointer then k else k + 1])
            && (op.NewFrom? ==> r.loose == m.loose + [Object(pools[op.pool], m.created[pools[op.pool]])])
  {
  }

  /** The object belongs to one handle or one pointer, or has been destroyed once, or is not created yet. */
  ghost predicate Accounted(m: Model, o: Object)
    requires o.pool in m.created && o.pool in m.destroyed
  {
    m.destroyed[o.pool][o.id] + Count(m.held, Some(o)) + Count(m.loose, o) == if o.id < m.created[o.pool] then 1 else 0
  }

  lemma AccountedAssign(pools: seq<ObjectPoolSafe>, m: Model, t: nat, s: nat, o: Object)
    requires Covers(m, pools) && t < |m.held| && s < |m.held| && o.pool in pools && Accounted(m, o)
    ensures Accounted(After(pools, m, AssignFrom(t, s)), o)
  {
    hide Count, Buried, Ended;
    BuriedCount(m.destroyed, if t == s then None else m.held[t], o);
    CountUpdate(m.held, t, m.held[s], Some(o));
    CountUpdate(m.held[t := m.held[s]], s, if t == s then m.held[s] else None, Some(o));
  }

  lemma AccountedHandles(pools: seq<ObjectPoolSafe>, m: Model, op: Op, o: Object)
    requires Covers(m, pools) && Named(op, |pools|, |m.held|, |m.loose|) && o.pool in pools && Accounted(m, o)
    requires op.MakeEmpty? || op.MoveFrom? || op.Destroy?
    ensures Accounted(After(pools, m, op), o)
  {
    hide Count, Buried, Ended;
    match op
    case MakeEmpty => CountAppend(m.held, None, Some(o));
    case MoveFrom(s) =>
      CountUpdate(m.held, s, None, Some(o));
      CountAppend(m.held[s := None], m.held[s], Some(o));
    case Destroy(h) =>
      BuriedCount(m.destroyed, m.held[h], o);
      CountUpdate(m.held, h, None, Some(o));
  }

  lemma AccountedCreation(pools: seq<ObjectPoolSafe>, m: Model, op: Op, o: Object)
    requires Covers(m, pools) && Named(op, |pools|, |m.held|, |m.loose|) && o.pool in pools && Accounted(m, o)
    requires op.MakeFrom? || op.NewFrom? || op.DeletePointer?
    ensures Accounted(After(pools, m, op), o)
  {
    hide Count, Buried, Ended;
    match op
    case MakeFrom(k) => CountAppend(m.held, Some(Object(pools[k], m.created[pools[k]])), Some(o));
    case NewFrom(k) => CountAppend(m.loose, Object(pools[k], m.created[pools[k]]), o);
    case DeletePointer(i) =>
      BuriedCount(m.destroyed, Some(m.loose[i]), o);
      CountRemoved(m.loose, i, o);
  }

  /** Conservation: whatever a program does, no object is lost, duplicated or destroyed twice. */
  lemma {:induction false} AccountedAfterAll(pools: seq<ObjectPoolSafe>, m: Model, ops: seq<Op>, o: Object)
    requires Covers(m, pools) && AllNamed(ops, |pools|, |m.held|, |m.loose|) && o.pool in pools && Accounted(m, o)
    ensures Accounted(AfterAll(pools, m, ops), o)
    decreases |ops|
  {
    if ops != [] {
      if ops[0].MakeFrom? || ops[0].NewFrom? || ops[0].DeletePointer? {
        AccountedCreation(pools, m, ops[0], o);
      } else if ops[0].AssignFrom? {
        AccountedAssign(pools, m, ops[0].target, ops[0].source, o);
      } else {
        AccountedHandles(pools, m, ops[0], o);
      }
      AccountedAfterAll(pools, After(pools, m, ops[0]), ops[1..], o);
    }
  }

  // ---------------------------------------------------------------- programs mean what the model says

  /** The objects no handle owns, pool by pool. */
  ghost function AllLoose(pools: set<ObjectPoolSafe>): map<ObjectPoolSafe, map<nat, nat>>
    reads pools
  {
    map p | p in pools :: Loose(p)
  }

  /** The pointers are to exactly these objects, one to each. */
  ghost predicate Points(loose: map<ObjectPoolSafe, map<nat, nat>>, pointers: seq<Pointer>, objects: seq<Object>) {
    && |objects| == |pointers|
    && (forall i, j :: 0 <= i < j < |pointers| ==> pointers[i] != pointers[j])
    && (forall i :: 0 <= i < |pointers| ==>
          && pointers[i].pool in loose && pointers[i].obj in loose[pointers[i].pool]
          && objects[i] == Object(pointers[i].pool, loose[pointers[i].pool][pointers[i].obj]))
    && (forall p, a :: p in loose && a in loose[p] ==> Pointer(p, a) in pointers)
  }

  lemma PointsNew(loose: map<ObjectPoolSafe, map<nat, nat>>, loose': map<ObjectPoolSafe, map<nat, nat>>,
        pointers: seq<Pointer>, objects: seq<Object>, pool: ObjectPoolSafe, obj: nat, id: nat)
    requires Points(loose, pointers, objects) && pool in loose && obj !in loose[pool]
    requires loose'.Keys == loose.Keys && loose'[pool] == loose[pool][obj := id]
    requires forall p :: p in loose && p != pool ==> loose'[p] == loose[p]
    ensures Points(loose', pointers + [Pointer(pool, obj)], objects + [Object(pool, id)])
  {
    var q := Pointer(pool, obj);
    var all, objects' := pointers + [q], objects + [Object(pool, id)];
    assert q !in pointers;
    forall i | 0 <= i < |all|
      ensures all[i].pool in loose' && all[i].obj in loose'[all[i].pool]
      ensures objects'[i] == Object(all[i].pool, loose'[all[i].pool][all[i].obj])
    {
      if i < |pointers| {
        assert all[i] == pointers[i] && pointers[i] in pointers;
      }
    }
    PointedStill(loose, loose', pointers, objects, pool, obj, id);
  }

  lemma PointedStill(loose: map<ObjectPoolSafe, map<nat, nat>>, loose': map<ObjectPoolSafe, map<nat, nat>>,
        pointers: seq<Pointer>, objects: seq<Object>, pool: ObjectPoolSafe, obj: nat, id: nat)
    requires Points(loose, pointers, objects) && pool in loose
    requires loose'.Keys == loose.Keys && loose'[pool] == loose[pool][obj := id]
    requires forall p :: p in loose && p != pool ==> loose'[p] == loose[p]
    ensures forall p, a :: p in loose' && a in loose'[p] ==> Pointer(p, a) in pointers + [Pointer(pool, obj)]
  {
    var all, q := pointers + [Pointer(pool, obj)], Pointer(pool, obj);
    forall p, a | p in loose' && a in loose'[p] ensures Pointer(p, a) in all {
      if Pointer(p, a) == q {
        assert all[|pointers|] == q;
      } else {
        assert a in loose[p] && Pointer(p, a) in pointers;
      }
    }
  }

  lemma PointsDelete(loose: map<ObjectPoolSafe, map<nat, nat>>, loose': map<ObjectPoolSafe, map<nat, nat>>,
        pointers: seq<Pointer>, objects: seq<Object>, i: nat)
    requires Points(loose, pointers, objects) && i < |pointers|
    requires loose'.Keys == loose.Keys && loose'[pointers[i].pool] == loose[pointers[i].pool] - {pointers[i].obj}
    requires forall p :: p in loose && p != pointers[i].pool ==> loose'[p] == loose[p]
    ensures Points(loose', Removed(pointers, i), Removed(objects, i))
  {
    hide Removed;
    var rest, left := Removed(pointers, i), Removed(objects, i);
    forall k | 0 <= k < |rest|
      ensures rest[k] == pointers[Back(k, i)] && left[k] == objects[Back(k, i)]
      ensures rest[k].pool in loose' && rest[k].obj in loose'[rest[k].pool]
      ensures left[k] == Object(rest[k].pool, loose'[rest[k].pool][rest[k].obj])
    {
      RemovedAt(pointers, i, k);
      RemovedAt(objects, i, k);
    }
    forall j, k | 0 <= j < k < |rest| ensures rest[j] != rest[k] {
      assert Back(j, i) < Back(k, i);
    }
    StillPointed(loose, loose', pointers, objects, i);
  }

  lemma StillPointed(loose: map<ObjectPoolSafe, map<nat, nat>>, loose': map<ObjectPoolSafe, map<nat, nat>>,
        pointers: seq<Pointer>, objects: seq<Object>, i: nat)
    requires Points(loose, pointers, objects) && i < |pointers|
    requires loose'.Keys == loose.Keys && loose'[pointers[i].pool] == loose[pointers[i].pool] - {pointers[i].obj}
    requires forall p :: p in loose && p != pointers[i].pool ==> loose'[p] == loose[p]
    ensures forall p, a :: p in loose' && a in loose'[p] ==> Pointer(p, a) in Removed(pointers, i)
  {
    hide Removed;
    forall p, a | p in loose' && a in loose'[p] ensures Pointer(p, a) in Removed(pointers, i) {
      assert a in loose[p] && Pointer(p, a) in pointers && Pointer(p, a) != pointers[i];
      var j :| 0 <= j < |pointers| && pointers[j] == Pointer(p, a);
      RemovedAt(pointers, i, if j < i then j else j - 1);
    }
  }

  lemma PointedAt(loose: map<ObjectPoolSafe, map<nat, nat>>, pointers: seq<Pointer>, objects: seq<Object>, i: nat)
    requires Points(loose, pointers, objects) && i < |pointers|
    ensures |objects| == |pointers| && pointers[i].pool in loose && pointers[i].obj in loose[pointers[i].pool]
    ensures objects[i] == Object(pointers[i].pool, loose[pointers[i].pool][pointers[i].obj])
  {
  }

  /** What each handle refers to. */
  ghost function AllHeld(pools: set<ObjectPoolSafe>, handles: set<PooledPtr>): map<PooledPtr, Option<Object>>
    requires World(pools, handles)
    reads handles, pools, Stores(pools)
  {
    AllRest(pools, handles);
    map h | h in handles :: Holding(h)
  }

  lemma AllRest(pools: set<ObjectPoolSafe>, handles: set<PooledPtr>)
    requires World(pools, handles)
    ensures forall h :: h in handles ==> Rests(h, pools)
  {
  }

  ghost function AllCreated(pools: set<ObjectPoolSafe>): map<ObjectPoolSafe, nat>
    reads pools
  {
    map p | p in pools :: p.created
  }

  ghost function AllDestroyed(pools: set<ObjectPoolSafe>): map<ObjectPoolSafe, multiset<nat>>
    reads pools
  {
    map p | p in pools :: p.destroyed
  }

  /** The handles, each listed once, refer to these objects. */
  ghost predicate Lists(held: map<PooledPtr, Option<Object>>, handles: seq<PooledPtr>, objects: seq<Option<Object>>) {
    && |objects| == |handles|
    && (forall i, j :: 0 <= i < j < |handles| ==> handles[i] != handles[j])
    && (forall i :: 0 <= i < |handles| ==> handles[i] in held && held[handles[i]] == objects[i])
  }

  lemma ListsNew(held: map<PooledPtr, Option<Object>>, held': map<PooledPtr, Option<Object>>, handles: seq<PooledPtr>,
        objects: seq<Option<Object>>, h: PooledPtr, o: Option<Object>)
    requires Lists(held, handles, objects) && h !in handles && held' == held[h := o]
    ensures Lists(held', handles + [h], objects + [o])
  {
  }

  lemma ListsUpdate(held: map<PooledPtr, Option<Object>>, handles: seq<PooledPtr>, objects: seq<Option<Object>>, i: nat,
        o: Option<Object>)
    requires Lists(held, handles, objects) && i < |handles|
    ensures |objects| == |handles| && handles[i] in held && held[handles[i]] == objects[i]
    ensures Lists(held[handles[i] := o], handles, objects[i := o])
  {
  }

  lemma ListsIndex(held: map<PooledPtr, Option<Object>>, handles: seq<PooledPtr>, objects: seq<Option<Object>>, i: nat, j: nat)
    requires Lists(held, handles, objects) && i < |handles| && j < |handles|
    ensures handles[i] == handles[j] <==> i == j
  {
  }

  /** The handles, pointers and pools are as the model says. */
  ghost predicate Shows(pools: seq<ObjectPoolSafe>, handles: seq<PooledPtr>, pointers: seq<Pointer>, m: Model)
    reads handles, pools, Stores(Elements(pools))
  {
    && World(Elements(pools), Elements(handles))
    && Lists(AllHeld(Elements(pools), Elements(handles)), handles, m.held)
    && m.created == AllCreated(Elements(pools)) && m.destroyed == AllDestroyed(Elements(pools))
    && Points(AllLoose(Elements(pools)), pointers, m.loose)
  }

  lemma SameLength(pools: seq<ObjectPoolSafe>, handles: seq<PooledPtr>, pointers: seq<Pointer>, m: Model)
    requires Shows(pools, handles, pointers, m)
    ensures |m.held| == |handles| && |m.loose| == |pointers| && Covers(m, pools)
  {
  }

  method PerformMakeEmpty(pools: seq<ObjectPoolSafe>, handles: seq<PooledPtr>, ghost pointers: seq<Pointer>, ghost m: Model)
    returns (handles': seq<PooledPtr>)
    requires Shows(pools, handles, pointers, m) && Named(MakeEmpty, |pools|, |handles|, |pointers|)
    modifies handles, pools, Stores(Elements(pools))
    ensures Shows(pools, handles', pointers, After(pools, m, MakeEmpty))
    ensures forall i :: 0 <= i < |handles'| ==> handles'[i] in handles || fresh(handles'[i])
  {
    hide World, Holding, Stores, Points, Loose, Ended, Lists;
    ghost var ps, hs := Elements(pools), Elements(handles);
    ghost var held, loose := AllHeld(ps, hs), AllLoose(ps);
    SameLength(pools, handles, pointers, m);
    var handle := MakeNone(ps, hs);
    ElementsSnoc(handles, handle);
    handles' := handles + [handle];
    ListsNew(held, AllHeld(ps, hs + {handle}), handles, m.held, handle, None);
    assert AllLoose(ps) == loose;
  }

  method PerformMake(pools: seq<ObjectPoolSafe>, handles: seq<PooledPtr>, ghost pointers: seq<Pointer>, p: nat, ghost m: Model)
    returns (handles': seq<PooledPtr>)
    requires Shows(pools, handles, pointers, m) && Named(MakeFrom(p), |pools|, |handles|, |pointers|)
    modifies handles, pools, Stores(Elements(pools))
    ensures Shows(pools, handles', pointers, After(pools, m, MakeFrom(p)))
    ensures forall i :: 0 <= i < |handles'| ==> handles'[i] in handles || fresh(handles'[i])
  {
    hide World, Holding, Stores, Points, Loose, Ended, Lists, Grown;
    ghost var ps, hs := Elements(pools), Elements(handles);
    ghost var held, loose := AllHeld(ps, hs), AllLoose(ps);
    SameLength(pools, handles, pointers, m);
    var handle := Make(ps, hs, pools[p]);
    ElementsSnoc(handles, handle);
    handles' := handles + [handle];
    ListsNew(held, AllHeld(ps, hs + {handle}), handles, m.held, handle, Some(Object(pools[p], m.created[pools[p]])));
    assert AllLoose(ps) == loose;
    assert AllDestroyed(ps) == m.destroyed;
    IsGrown(m.created, AllCreated(ps), pools[p]);
  }

  method PerformMove(pools: seq<ObjectPoolSafe>, handles: seq<PooledPtr>, ghost pointers: seq<Pointer>, source: nat, ghost m: Model)
    returns (handles': seq<PooledPtr>)
    requires Shows(pools, handles, pointers, m) && Named(MoveFrom(source), |pools|, |handles|, |pointers|)
    modifies handles, pools, Stores(Elements(pools))
    ensures Shows(pools, handles', pointers, After(pools, m, MoveFrom(source)))
    ensures forall i :: 0 <= i < |handles'| ==> handles'[i] in handles || fresh(handles'[i])
  {
    hide World, Holding, Stores, Points, Loose, Ended, Lists;
    ghost var ps, hs := Elements(pools), Elements(handles);
    ghost var held, loose := AllHeld(ps, hs), AllLoose(ps);
    SameLength(pools, handles, pointers, m);
    ListsUpdate(held, handles, m.held, source, None);
    var handle := Move(ps, hs, handles[source]);
    ElementsSnoc(handles, handle);
    handles' := handles + [handle];
    ListsNew(held[handles[source] := None], AllHeld(ps, hs + {handle}), handles, m.held[source := None], handle, m.held[source]);
    assert AllLoose(ps) == loose;
    assert AllDestroyed(ps) == m.destroyed && AllCreated(ps) == m.created;
  }

  method PerformAssign(pools: seq<ObjectPoolSafe>, handles: seq<PooledPtr>, ghost pointers: seq<Pointer>, target: nat, source: nat, ghost m: Model)
    returns (handles': seq<PooledPtr>)
    requires Shows(pools, handles, pointers, m) && Named(AssignFrom(target, source), |pools|, |handles|, |pointers|)
    modifies handles, pools, Stores(Elements(pools))
    ensures Shows(pools, handles', pointers, After(pools, m, AssignFrom(target, source)))
    ensures forall i :: 0 <= i < |handles'| ==> handles'[i] in handles || fresh(handles'[i])
  {
    hide World, Holding, Stores, Points, Loose, Ended, Lists, Buried;
    ghost var ps, hs := Elements(pools), Elements(handles);
    ghost var held, loose := AllHeld(ps, hs), AllLoose(ps);
    SameLength(pools, handles, pointers, m);
    handles' := handles;
    ghost var t, s := handles[target], handles[source];
    ListsUpdate(held, handles, m.held, source, None);
    ListsUpdate(held, handles, m.held, target, m.held[source]);
    ListsUpdate(held[t := held[s]], handles, m.held[target := m.held[source]], source, if target == source then held[s] else None);
    ListsIndex(held, handles, m.held, target, source);
    Assign(ps, hs, handles[target], handles[source]);
    assert AllHeld(ps, hs) == held[t := held[s]][s := if t == s then held[s] else None];
    assert AllLoose(ps) == loose && AllCreated(ps) == m.created;
    IsBuried(m.destroyed, AllDestroyed(ps), if target == source then None else m.held[target]);
  }

  method PerformDestroy(pools: seq<ObjectPoolSafe>, handles: seq<PooledPtr>, ghost pointers: seq<Pointer>, h: nat, ghost m: Model)
    returns (handles': seq<PooledPtr>)
    requires Shows(pools, handles, pointers, m) && Named(Destroy(h), |pools|, |handles|, |pointers|)
    modifies handles, pools, Stores(Elements(pools))
    ensures Shows(pools, handles', pointers, After(pools, m, Destroy(h)))
    ensures forall i :: 0 <= i < |handles'| ==> handles'[i] in handles || fresh(handles'[i])
  {
    hide World, Holding, Stores, Points, Loose, Ended, Lists, Buried;
    ghost var ps, hs := Elements(pools), Elements(handles);
    ghost var held, loose := AllHeld(ps, hs), AllLoose(ps);
    SameLength(pools, handles, pointers, m);
    handles' := handles;
    ListsUpdate(held, handles, m.held, h, None);
    Drop(ps, hs, handles[h]);
    assert AllHeld(ps, hs) == held[handles[h] := None];
    assert AllLoose(ps) == loose && AllCreated(ps) == m.created;
    IsBuried(m.destroyed, AllDestroyed(ps), m.held[h]);
  }

  method PerformNew(pools: seq<ObjectPoolSafe>, handles: seq<PooledPtr>, pointers: seq<Pointer>, p: nat, ghost m: Model)
    returns (pointers': seq<Pointer>)
    requires Shows(pools, handles, pointers, m) && Named(NewFrom(p), |pools|, |handles|, |pointers|)
    modifies handles, pools, Stores(Elements(pools))
    ensures Shows(pools, handles, pointers', After(pools, m, NewFrom(p)))
  {
    hide World, Holding, Stores, Points, Loose, Ended, Lists, Grown;
    ghost var ps, hs := Elements(pools), Elements(handles);
    ghost var held, loose := AllHeld(ps, hs), AllLoose(ps);
    SameLength(pools, handles, pointers, m);
    var obj := New(ps, hs, pools[p]);
    pointers' := pointers + [Pointer(pools[p], obj)];
    assert AllHeld(ps, hs) == held;
    PointsNew(loose, AllLoose(ps), pointers, m.loose, pools[p], obj, m.created[pools[p]]);
    assert AllDestroyed(ps) == m.destroyed;
    IsGrown(m.created, AllCreated(ps), pools[p]);
  }

  method PerformDelete(pools: seq<ObjectPoolSafe>, handles: seq<PooledPtr>, pointers: seq<Pointer>, i: nat, ghost m: Model)
    returns (pointers': seq<Pointer>)
    requires Shows(pools, handles, pointers, m) && Named(DeletePointer(i), |pools|, |handles|, |pointers|)
    modifies handles, pools, Stores(Elements(pools))
    ensures Shows(pools, handles, pointers', After(pools, m, DeletePointer(i)))
  {
    hide World, Holding, Stores, Points, Loose, Ended, Lists, Buried;
    ghost var ps, hs := Elements(pools), Elements(handles);
    ghost var held, loose := AllHeld(ps, hs), AllLoose(ps);
    SameLength(pools, handles, pointers, m);
    PointedAt(loose, pointers, m.loose, i);
    Delete(ps, hs, pointers[i].pool, pointers[i].obj);
    pointers' := Removed(pointers, i);
    assert AllHeld(ps, hs) == held && AllCreated(ps) == m.created;
    IsBuried(m.destroyed, AllDestroyed(ps), Some(m.loose[i]));
    PointsDelete(loose, AllLoose(ps), pointers, m.loose, i);
  }

  method Perform(pools: seq<ObjectPoolSafe>, handles: seq<PooledPtr>, pointers: seq<Pointer>, op: Op, ghost m: Model)
    returns (handles': seq<PooledPtr>, pointers': seq<Pointer>)
    requires Shows(pools, handles, pointers, m) && Named(op, |pools|, |handles|, |pointers|)
    modifies handles, pools, Stores(Elements(pools))
    ensures |m.held| == |handles| && |m.loose| == |pointers| && Covers(m, pools)
    ensures Shows(pools, handles', pointers', After(pools, m, op))
    ensures forall i :: 0 <= i < |handles'| ==> handles'[i] in handles || fresh(handles'[i])
  {
    SameLength(pools, handles, pointers, m);
    hide Shows, After, Stores, Elements, Covers;
    handles', pointers' := handles, pointers;
    match op
    case MakeEmpty => handles' := PerformMakeEmpty(pools, handles, pointers, m);
    case MakeFrom(p) => handles' := PerformMake(pools, handles, pointers, p, m);
    case MoveFrom(source) => handles' := PerformMove(pools, handles, pointers, source, m);
    case AssignFrom(target, source) => handles' := PerformAssign(pools, handles, pointers, target, source, m);
    case Destroy(h) => handles' := PerformDestroy(pools, handles, pointers, h, m);
    case NewFrom(p) => pointers' := PerformNew(pools, handles, pointers, p, m);
    case DeletePointer(i) => pointers' := PerformDelete(pools, handles, pointers, i, m);
  }

  /** Any program does to the handles, pointers and pools what the model says, and keeps every handle the
      only owner of its object. */
  method Run(pools: seq<ObjectPoolSafe>, handles: seq<PooledPtr>, pointers: seq<Pointer>, ops: seq<Op>, ghost m: Model)
    returns (handles': seq<PooledPtr>, pointers': seq<Pointer>)
    requires Shows(pools, handles, pointers, m) && AllNamed(ops, |pools|, |handles|, |pointers|)
    modifies handles, pools, Stores(Elements(pools))
    ensures |m.held| == |handles| && |m.loose| == |pointers| && Covers(m, pools)
    ensures Shows(pools, handles', pointers', AfterAll(pools, m, ops))
    ensures forall i :: 0 <= i < |handles'| ==> handles'[i] in handles || fresh(handles'[i])
    decreases |ops|
  {
    SameLength(pools, handles, pointers, m);
    handles', pointers' := handles, pointers;
    if ops != [] {
      hide Shows, Elements, Stores, After, Covers;
      handles', pointers' := Perform(pools, handles, pointers, ops[0], m);
      handles', pointers' := Run(pools, handles', pointers', ops[1..], After(pools, m, ops[0]));
    }
  }

  // ---------------------------------------------------------------- the end of a program

  /** The end of a scope: every handle is destroyed. */
  method DestroyAll(pools: seq<ObjectPoolSafe>, handles: seq<PooledPtr>)
    requires World(Elements(pools), Elements(handles))
    modifies handles, pools, Stores(Elements(pools))
    ensures World(Elements(pools), Elements(handles))
    ensures forall h <- handles :: Holding(h) == None
    ensures forall p <- pools :: p.created == old(p.created) && Loose(p) == old(Loose(p))
  {
    hide World, Stores, Holding, Loose;
    for i := 0 to |handles|
      invariant World(Elements(pools), Elements(handles))
      invariant forall p <- pools :: p.created == old(p.created) && Loose(p) == old(Loose(p))
      invariant forall j :: 0 <= j < i ==> Holding(handles[j]) == None
    {
      Drop(Elements(pools), Elements(handles), handles[i]);
    }
  }

  /** How many objects a program creates in a pool. */
  ghost function Creations(pools: seq<ObjectPoolSafe>, ops: seq<Op>, p: ObjectPoolSafe): nat {
    if ops == [] then 0 else
      var op := ops[0];
      Creations(pools, ops[1..], p) + if (op.MakeFrom? || op.NewFrom?) && op.pool < |pools| && pools[op.pool] == p then 1 else 0
  }

  lemma {:induction false} ModelCreations(pools: seq<ObjectPoolSafe>, m: Model, ops: seq<Op>, p: ObjectPoolSafe)
    requires Covers(m, pools) && AllNamed(ops, |pools|, |m.held|, |m.loose|) && p in pools
    ensures AfterAll(pools, m, ops).created[p] == m.created[p] + Creations(pools, ops, p)
    decreases |ops|
  {
    if ops != [] {
      ModelCreations(pools, After(pools, m, ops[0]), ops[1..], p);
    }
  }

  /** Exactly the objects these pointers refer to are left; every other object ever created has been
      destroyed exactly once. */
  ghost predicate Settled(pool: ObjectPoolSafe, pointers: seq<Pointer>)
    reads pool
  {
    && (forall a :: a in pool.live <==> Pointer(pool, a) in pointers)
    && (forall id: nat :: pool.destroyed[id] == if id < pool.created && !HasId(pool.live, id) then 1 else 0)
  }

  /** Pools without objects, each with its own storage. */
  ghost predicate Unused(pools: seq<ObjectPoolSafe>)
    reads pools, Stores(Elements(pools)), set p, h | p in pools && h in p.owner.Values :: h
  {
    && (forall p <- pools :: p.Valid() && p.live == map[])
    && (forall p <- pools, q <- pools :: p != q ==> p.pool != q.pool)
  }

  /** A whole program on fresh pools, up to the end of its scope. What it created by `create` and did not
      destroy is left to its pointers; if there is nothing left, the pools are as new. */
  method Program(pools: seq<ObjectPoolSafe>, ops: seq<Op>) returns (pointers: seq<Pointer>)
    requires Unused(pools) && AllNamed(ops, |pools|, 0, 0)
    modifies pools, Stores(Elements(pools))
    ensures forall p <- pools :: p.Valid() && Settled(p, pointers) && p.created == old(p.created) + Creations(pools, ops, p)
    ensures pointers == [] ==> Unused(pools)
  {
    ghost var m := FreshWorld(pools);
    hide World, Shows, Stores, AfterAll, Elements, Creations, ObjectPoolSafe.Valid, Holding, Settled, Unused, Points, Loose;
    var handles;
    handles, pointers := Run(pools, [], [], ops, m);
    ghost var loose := AllLoose(Elements(pools));
    Shown(pools, handles, pointers, AfterAll(pools, m, ops));
    DestroyAll(pools, handles);
    SameLoose(pools, loose);
    forall p | p in pools
      ensures p.Valid() && Settled(p, pointers) && p.created == old(p.created) + Creations(pools, ops, p)
    {
      ModelCreations(pools, m, ops, p);
      NothingOwned(pools, handles, pointers, AfterAll(pools, m, ops).loose, p);
    }
    if pointers == [] {
      UnusedAgain(pools, handles);
    }
  }

  lemma SameLoose(pools: seq<ObjectPoolSafe>, loose: map<ObjectPoolSafe, map<nat, nat>>)
    requires loose.Keys == Elements(pools) && forall p <- pools :: Loose(p) == loose[p]
    ensures AllLoose(Elements(pools)) == loose
  {
  }

  lemma Shown(pools: seq<ObjectPoolSafe>, handles: seq<PooledPtr>, pointers: seq<Pointer>, m: Model)
    requires Shows(pools, handles, pointers, m)
    ensures World(Elements(pools), Elements(handles)) && Points(AllLoose(Elements(pools)), pointers, m.loose)
    ensures AllLoose(Elements(pools)).Keys == Elements(pools)
    ensures forall p <- pools :: p in m.created && p.created == m.created[p] && AllLoose(Elements(pools))[p] == Loose(p)
  {
  }

  lemma FreshWorld(pools: seq<ObjectPoolSafe>) returns (m: Model)
    requires Unused(pools)
    ensures Shows(pools, [], [], m) && m.held == [] && m.loose == []
    ensures forall p <- pools :: p in m.created && p.created == m.created[p]
  {
    hide Ledger, MemoryPoolSafe.Valid;
    m := Model([], [], AllCreated(Elements(pools)), AllDestroyed(Elements(pools)));
  }

  lemma NothingOwned(pools: seq<ObjectPoolSafe>, handles: seq<PooledPtr>, pointers: seq<Pointer>, objects: seq<Object>, pool: ObjectPoolSafe)
    requires World(Elements(pools), Elements(handles)) && Points(AllLoose(Elements(pools)), pointers, objects) && pool in pools
    requires forall h <- handles :: Holding(h) == None
    ensures pool.Valid() && Settled(pool, pointers)
  {
    NoOwner(Elements(pools), Elements(handles), pool);
    DestroyedOrLive(pool);
    hide World, ObjectPoolSafe.Valid, Points, Loose;
    forall a ensures a in pool.live <==> Pointer(pool, a) in pointers {
      PointsHere(AllLoose(Elements(pools)), pointers, objects, pool, a);
    }
  }

  lemma NoOwner(pools: set<ObjectPoolSafe>, handles: set<PooledPtr>, pool: ObjectPoolSafe)
    requires World(pools, handles) && pool in pools && forall h :: h in handles ==> Holding(h) == None
    ensures pool.Valid() && Loose(pool) == pool.live
  {
    hide Ledger, MemoryPoolSafe.Valid;
    assert Kept(pool, handles);
    if p :| p in pool.owner {
      assert false;
    }
  }

  lemma PointsHere(loose: map<ObjectPoolSafe, map<nat, nat>>, pointers: seq<Pointer>, objects: seq<Object>, pool: ObjectPoolSafe, a: nat)
    requires Points(loose, pointers, objects) && pool in loose
    ensures a in loose[pool] <==> Pointer(pool, a) in pointers
  {
  }

  lemma DestroyedOrLive(pool: ObjectPoolSafe)
    requires pool.Valid()
    ensures forall id: nat :: pool.destroyed[id] == if id < pool.created && !HasId(pool.live, id) then 1 else 0
  {
    hide MemoryPoolSafe.Valid;
  }

  lemma UnusedAgain(pools: seq<ObjectPoolSafe>, handles: seq<PooledPtr>)
    requires World(Elements(pools), Elements(handles)) && forall p <- pools :: p.Valid() && Settled(p, [])
    ensures Unused(pools)
  {
    hide Ledger, MemoryPoolSafe.Valid, ObjectPoolSafe.Valid;
    forall p | p in pools ensures p.live == map[] {
      assert Settled(p, []);
    }
  }
}
