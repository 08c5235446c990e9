/** Course Schedule: Kahn's algorithm decides whether the prerequisite relation has a cycle. */
module CourseSchedule {
  import opened Counting

  /** `(a, b)`: course `b` must be taken before course `a`. */
  type Prereqs = seq<(nat, nat)>

  ghost predicate InRange(n: nat, ps: Prereqs) {
    forall i :: 0 <= i < |ps| ==> ps[i].0 < n && ps[i].1 < n
  }

  predicate Before(ps: Prereqs, b: nat, a: nat) {
    (a, b) in ps
  }

  ghost predicate Link(ps: Prereqs, c: seq<nat>, i: int)
    requires 0 <= i < |c| - 1
  {
    Before(ps, c[i], c[i + 1])
  }

  /** Each course of `c` must be taken before the next. */
  ghost predicate Chain(ps: Prereqs, c: seq<nat>) {
    forall i :: 0 <= i < |c| - 1 ==> Link(ps, c, i)
  }

  /** A chain whose last course must be taken before its first. */
  ghost predicate Cycle(ps: Prereqs, c: seq<nat>) {
    c != [] && Chain(ps, c) && Before(ps, c[|c| - 1], c[0])
  }

  ghost predicate Acyclic(ps: Prereqs) {
    forall c :: !Cycle(ps, c)
  }

  ghost predicate Distinct(s: seq<nat>) {
    forall i, j :: 0 <= i < j < |s| ==> s[i] != s[j]
  }

  /** Every course of `order` comes after all its prerequisites. */
  ghost predicate Topological(ps: Prereqs, order: seq<nat>) {
    Distinct(order) && forall i, b :: 0 <= i < |order| && Before(ps, b, order[i]) ==> b in order[..i]
  }

  // ---------------------------------------------------------------- counting

  /** `graph[b]` after the edges `ps`. */
  ghost function Successors(ps: Prereqs, b: nat): seq<nat> {
    if ps == [] then [] else
      var rest, p := Successors(ps[..|ps| - 1], b), ps[|ps| - 1];
      if p.1 == b then rest + [p.0] else rest
  }

  /** How many prerequisite entries of `v` name a course outside `done`. */
  ghost function Pending(ps: Prereqs, done: set<nat>, v: nat): nat {
    if ps == [] then 0 else
      var p := ps[|ps| - 1];
      Pending(ps[..|ps| - 1], done, v) + if p.0 == v && p.1 !in done then 1 else 0
  }

  lemma {:induction false} PendingAfter(ps: Prereqs, done: set<nat>, cur: nat, v: nat)
    requires cur !in done
    ensures Pending(ps, done, v) == Pending(ps, done + {cur}, v) + Count<nat>(Successors(ps, cur), v)
  {
    if ps != [] {
      PendingAfter(ps[..|ps| - 1], done, cur, v);
      var rest, p := Successors(ps[..|ps| - 1], cur), ps[|ps| - 1];
      CountAppend(rest, p.0, v);
    }
  }

  lemma {:induction false} PendingZero(ps: Prereqs, done: set<nat>, v: nat)
    ensures Pending(ps, done, v) == 0 <==> forall b :: Before(ps, b, v) ==> b in done
  {
    if ps != [] {
      var rest, p := ps[..|ps| - 1], ps[|ps| - 1];
      PendingZero(rest, done, v);
      assert ps == rest + [p];
      assert forall b: nat :: Before(ps, b, v) <==> Before(rest, b, v) || (v, b) == p;
      assert p.0 == v ==> Before(ps, p.1, v);
    }
  }

  lemma {:induction false} CountMonotone(s: seq<nat>, j: nat, v: nat)
    requires j <= |s|
    ensures Count<nat>(s[..j], v) <= Count<nat>(s, v)
    ensures j < |s| ==> Count<nat>(s[..j + 1], v) == Count<nat>(s[..j], v) + if s[j] == v then 1 else 0
    decreases |s| - j
  {
    if j == |s| {
      assert s[..j] == s;
    } else {
      assert s[..j + 1] == s[..j] + [s[j]];
      CountAppend(s[..j], s[j], v);
      CountMonotone(s, j + 1, v);
    }
  }

  lemma {:induction false} SuccessorsInRange(n: nat, ps: Prereqs, b: nat)
    requires InRange(n, ps)
    ensures forall i :: 0 <= i < |Successors(ps, b)| ==> Successors(ps, b)[i] < n
  {
    if ps != [] {
      SuccessorsInRange(n, ps[..|ps| - 1], b);
    }
  }

  // ---------------------------------------------------------------- why the answer is right

  /** Along a topological order, following the relation only ever moves forward. */
  lemma {:induction false} CycleAdvances(ps: Prereqs, order: seq<nat>, c: seq<nat>, i: nat, p: nat)
    requires Topological(ps, order) && Cycle(ps, c) && (forall v :: v in c ==> v in order)
    requires i < |c| && p < |order| && order[p] == c[i]
    ensures exists q :: p <= q < |order| && order[q] == c[|c| - 1]
    decreases |c| - i
  {
    if i < |c| - 1 {
      assert Link(ps, c, i) && c[i + 1] in c;
      var q :| 0 <= q < |order| && order[q] == c[i + 1];
      assert Before(ps, c[i], order[q]);
      var r :| 0 <= r < q && order[..q][r] == c[i];
      assert r == p;
      CycleAdvances(ps, order, c, i + 1, q);
    }
  }

  lemma TopologicalIsAcyclic(n: nat, ps: Prereqs, order: seq<nat>)
    requires InRange(n, ps) && Topological(ps, order) && forall v :: 0 <= v < n ==> v in order
    ensures Acyclic(ps)
  {
    forall c | Cycle(ps, c) ensures false {
      CycleInRange(n, ps, c);
      assert c[0] in c && c[0] < n && c[0] in order;
      var p :| 0 <= p < |order| && order[p] == c[0];
      CycleAdvances(ps, order, c, 0, p);
      assert false;
    }
  }

  lemma CycleInRange(n: nat, ps: Prereqs, c: seq<nat>)
    requires InRange(n, ps) && Cycle(ps, c)
    ensures forall v :: v in c ==> v < n
  {
    forall i | 0 <= i < |c| ensures c[i] < n {
      if i < |c| - 1 {
        assert Link(ps, c, i);
      }
    }
  }

  ghost predicate HasPredecessor(ps: Prereqs, among: set<nat>, v: nat) {
    exists b :: b in among && Before(ps, b, v)
  }

  /** A walk against the relation through courses that all have a predecessor among themselves must
      meet itself. */
  lemma {:induction false} CycleAmong(ps: Prereqs, stuck: set<nat>, walk: seq<nat>) returns (c: seq<nat>)
    requires walk != [] && Distinct(walk) && forall v :: v in walk ==> v in stuck
    requires forall v :: v in stuck ==> HasPredecessor(ps, stuck, v)
    requires Chain(ps, walk)
    ensures Cycle(ps, c) && forall v :: v in c ==> v in stuck
    decreases |stuck| - |walk|
  {
    hide Link, Chain, Distinct, Cycle;
    assert walk[0] in walk;
    var b :| b in stuck && Before(ps, b, walk[0]);
    if b in walk {
      var j :| 0 <= j < |walk| && walk[j] == b;
      c := walk[..j + 1];
      CloseUp(ps, walk, j);
    } else {
      var longer := [b] + walk;
      ChainCons(ps, b, walk);
      assert forall v :: v in longer ==> v == b || v in walk;
      WalkFits(stuck, longer);
      c := CycleAmong(ps, stuck, longer);
    }
  }

  lemma CloseUp(ps: Prereqs, walk: seq<nat>, j: nat)
    requires Chain(ps, walk) && j < |walk| && Before(ps, walk[j], walk[0])
    ensures Cycle(ps, walk[..j + 1]) && forall v :: v in walk[..j + 1] ==> v in walk
  {
    var c := walk[..j + 1];
    forall i | 0 <= i < j ensures Link(ps, c, i) {
      assert Link(ps, walk, i);
    }
  }

  lemma ChainCons(ps: Prereqs, b: nat, walk: seq<nat>)
    requires Chain(ps, walk) && Distinct(walk) && walk != [] && Before(ps, b, walk[0]) && b !in walk
    ensures Chain(ps, [b] + walk) && Distinct([b] + walk)
  {
    var longer := [b] + walk;
    forall i | 0 <= i < |longer| - 1 ensures Link(ps, longer, i) {
      if i > 0 {
        assert Link(ps, walk, i - 1);
      }
    }
  }

  lemma {:induction false} WalkFits(stuck: set<nat>, walk: seq<nat>)
    requires Distinct(walk) && forall v :: v in walk ==> v in stuck
    ensures |walk| <= |stuck|
  {
    if walk != [] {
      var rest := walk[1..];
      assert forall v :: v in rest ==> v in walk;
      forall v | v in rest ensures v != walk[0] {
        var i :| 0 <= i < |rest| && rest[i] == v;
        assert walk[i + 1] == v;
      }
      WalkFits(stuck - {walk[0]}, rest);
    }
  }

  /** If Kahn's loop stops early, what is left over contains a cycle. */
  lemma LeftoverCycle(n: nat, ps: Prereqs, order: seq<nat>, v: nat) returns (c: seq<nat>)
    requires InRange(n, ps) && v < n && v !in order
    requires forall u :: 0 <= u < n && u !in order ==> Pending(ps, Taken(order), u) > 0
    ensures Cycle(ps, c) && forall u :: u in c ==> u !in order
  {
    var stuck := set u: nat | u < n && u !in order;
    forall u | u in stuck ensures HasPredecessor(ps, stuck, u) {
      PendingZero(ps, Taken(order), u);
      var b :| Before(ps, b, u) && b !in Taken(order);
      assert b in stuck;
    }
    c := CycleAmong(ps, stuck, [v]);
  }

  ghost function Taken(order: seq<nat>): (s: set<nat>)
    ensures forall v :: v in s <==> v in order
  {
    set v | v in order
  }

  // ---------------------------------------------------------------- the algorithm

  /** The courses dequeued and those queued are exactly the ones whose count has dropped to zero,
      each once; those dequeued are in topological order. */
  ghost predicate KahnInv(n: nat, ps: Prereqs, order: seq<nat>, q: seq<nat>, indegree: seq<int>) {
    && |indegree| == n
    && Distinct(order + q) && (forall v :: v in order + q ==> v < n)
    && Topological(ps, order)
    && (forall v: nat :: v < n ==> (v in order + q <==> indegree[v] == 0))
  }

  /** The counts once the first `j` edges out of `cur` have been relaxed. */
  ghost predicate Relaxed(ps: Prereqs, done: set<nat>, cur: nat, j: nat, indegree: seq<int>) {
    && j <= |Successors(ps, cur)|
    && forall v :: 0 <= v < |indegree| ==> indegree[v] == Pending(ps, done, v) - Count<nat>(Successors(ps, cur)[..j], v)
  }

  /** Taking the next course off the queue keeps the order topological. */
  lemma Dequeue(n: nat, ps: Prereqs, order: seq<nat>, q: seq<nat>, indegree: seq<int>)
    requires KahnInv(n, ps, order, q, indegree) && q != []
    requires forall v :: 0 <= v < n ==> indegree[v] == Pending(ps, Taken(order), v)
    ensures KahnInv(n, ps, order + [q[0]], q[1..], indegree)
    ensures q[0] < n && q[0] !in order && Relaxed(ps, Taken(order), q[0], 0, indegree)
  {
    var cur, order' := q[0], order + [q[0]];
    assert order' + q[1..] == order + q;
    assert (order + q)[|order|] == cur && cur in order + q;
    PendingZero(ps, Taken(order), cur);
    forall i, b | 0 <= i < |order'| && Before(ps, b, order'[i]) ensures b in order'[..i] {
      assert order'[..i] == if i < |order| then order[..i] else order;
    }
    forall i, j | 0 <= i < j < |order'| ensures order'[i] != order'[j] {
      assert (order + q)[i] == order'[i] && (order + q)[j] == order'[j];
    }
    forall i | 0 <= i < |order| ensures order[i] != cur {
      assert (order + q)[i] == order[i];
    }
  }

  /** Relaxing one edge: the count of its target was positive, and the target is queued exactly when
      it drops to zero. */
  lemma Relax(n: nat, ps: Prereqs, done: set<nat>, cur: nat, order: seq<nat>, q: seq<nat>, indegree: seq<int>, j: nat)
    requires InRange(n, ps) && cur !in done && KahnInv(n, ps, order, q, indegree)
    requires Relaxed(ps, done, cur, j, indegree) && j < |Successors(ps, cur)|
    ensures var next := Successors(ps, cur)[j];
            && next < n
            && var indegree' := indegree[next := indegree[next] - 1];
               var q' := if indegree'[next] == 0 then q + [next] else q;
               KahnInv(n, ps, order, q', indegree') && Relaxed(ps, done, cur, j + 1, indegree')
  {
    var succ := Successors(ps, cur);
    var next := succ[j];
    SuccessorsInRange(n, ps, cur);
    PendingAfter(ps, done, cur, next);
    CountMonotone(succ, j, next);
    CountMonotone(succ, j + 1, next);
    assert indegree[next] > 0;
    var indegree' := indegree[next := indegree[next] - 1];
    forall v | 0 <= v < n ensures indegree'[v] == Pending(ps, done, v) - Count<nat>(succ[..j + 1], v) {
      CountMonotone(succ, j, v);
    }
    if indegree'[next] == 0 {
      var l, l' := order + q, order + (q + [next]);
      assert l' == l + [next];
    }
  }

  /** All edges out of `cur` relaxed: the counts are those with `cur` done. */
  lemma AllRelaxed(n: nat, ps: Prereqs, order: seq<nat>, cur: nat, indegree: seq<int>)
    requires |indegree| == n && cur !in order
    requires Relaxed(ps, Taken(order), cur, |Successors(ps, cur)|, indegree)
    ensures forall v :: 0 <= v < n ==> indegree[v] == Pending(ps, Taken(order + [cur]), v)
  {
    var succ := Successors(ps, cur);
    assert succ[..|succ|] == succ;
    assert Taken(order + [cur]) == Taken(order) + {cur};
    forall v | 0 <= v < n ensures indegree[v] == Pending(ps, Taken(order + [cur]), v) {
      PendingAfter(ps, Taken(order), cur, v);
    }
  }

  /** An empty queue decides the question. */
  lemma Verdict(n: nat, ps: Prereqs, order: seq<nat>, indegree: seq<int>)
    requires InRange(n, ps) && KahnInv(n, ps, order, [], indegree)
    requires forall v :: 0 <= v < n ==> indegree[v] == Pending(ps, Taken(order), v)
    ensures |order| == n ==> Acyclic(ps) && forall v: nat :: v < n ==> v in order
    ensures |order| != n ==> exists c :: Cycle(ps, c) && forall v :: v in c ==> v !in order
  {
    assert order + [] == order;
    var all := AllCourses(n);
    WalkFits(all, order);
    if |order| == n {
      forall v: nat | v < n ensures v in order {
        if v !in order {
          WalkFits(all - {v}, order);
        }
      }
      TopologicalIsAcyclic(n, ps, order);
    } else {
      var v :| v in all && v !in order by {
        if forall v :: v in all ==> v in order {
          CoverSize(all, order);
        }
      }
      var c := LeftoverCycle(n, ps, order, v);
    }
  }

  ghost function AllCourses(n: nat): (s: set<nat>)
    ensures |s| == n && forall v: nat :: v in s <==> v < n
  {
    if n == 0 then {} else AllCourses(n - 1) + {n - 1}
  }

  lemma {:induction false} CoverSize(s: set<nat>, l: seq<nat>)
    requires forall v :: v in s ==> v in l
    ensures |s| <= |l|
  {
    if l != [] {
      CoverSize(s - {l[0]}, l[1..]);
    }
  }

  /** The first loop: adjacency lists and counts. */
  method Build(n: nat, ps: Prereqs) returns (graph: array<seq<nat>>, indegree: array<int>)
    requires InRange(n, ps)
    ensures fresh(graph) && fresh(indegree) && graph.Length == n == indegree.Length
    ensures forall v :: 0 <= v < n ==> graph[v] == Successors(ps, v)
    ensures forall v :: 0 <= v < n ==> indegree[v] == Pending(ps, {}, v)
  {
    graph := new seq<nat>[n](_ => []);
    indegree := new int[n](_ => 0);
    for i := 0 to |ps|
      invariant forall v :: 0 <= v < n ==> graph[v] == Successors(ps[..i], v)
      invariant forall v :: 0 <= v < n ==> indegree[v] == Pending(ps[..i], {}, v)
    {
      var (a, b) := ps[i];
      assert ps[..i + 1][..i] == ps[..i];
      graph[b] := graph[b] + [a];
      indegree[a] := indegree[a] + 1;
    }
    assert ps[..|ps|] == ps;
  }

  /** The second loop: courses without prerequisites are queued. */
  method Ready(n: nat, indegree: array<int>) returns (q: seq<nat>)
    requires indegree.Length == n
    ensures Distinct(q) && forall v: nat :: v in q <==> v < n && indegree[v] == 0
  {
    q := [];
    for i := 0 to n
      invariant forall v: nat :: v in q <==> v < i && indegree[v] == 0
      invariant Distinct(q)
    {
      if indegree[i] == 0 {
        q := q + [i];
      }
    }
  }

  /** The inner loop: the edges out of the course just dequeued are relaxed. */
  method RelaxAll(n: nat, ghost ps: Prereqs, next: seq<nat>, indegree: array<int>, waiting: seq<nat>, ghost cur: nat,
        ghost done: seq<nat>)
    returns (q: seq<nat>)
    requires InRange(n, ps) && indegree.Length == n && cur < n && cur !in done && next == Successors(ps, cur)
    requires KahnInv(n, ps, done + [cur], waiting, indegree[..]) && Relaxed(ps, Taken(done), cur, 0, indegree[..])
    modifies indegree
    ensures KahnInv(n, ps, done + [cur], q, indegree[..])
    ensures forall v :: 0 <= v < n ==> indegree[v] == Pending(ps, Taken(done + [cur]), v)
  {
    hide KahnInv, Relaxed, Successors, Pending, Taken;
    q := waiting;
    for j := 0 to |next|
      invariant KahnInv(n, ps, done + [cur], q, indegree[..])
      invariant Relaxed(ps, Taken(done), cur, j, indegree[..])
    {
      Relax(n, ps, Taken(done), cur, done + [cur], q, indegree[..], j);
      var v := next[j];
      ghost var before := indegree[..];
      indegree[v] := indegree[v] - 1;
      assert indegree[..] == before[v := before[v] - 1];
      if indegree[v] == 0 {
        q := q + [v];
      }
    }
    AllRelaxed(n, ps, done, cur, indegree[..]);
  }

  /** Every pair of the input is respected. */
  lemma InPairs(ps: Prereqs, order: seq<nat>)
    ensures Topological(ps, order) ==>
              forall i, k :: 0 <= i < |order| && 0 <= k < |ps| && ps[k].0 == order[i] ==> ps[k].1 in order[..i]
  {
    if Topological(ps, order) {
      forall i, k | 0 <= i < |order| && 0 <= k < |ps| && ps[k].0 == order[i] ensures ps[k].1 in order[..i] {
        assert ps[k] == (order[i], ps[k].1);
        assert Before(ps, ps[k].1, order[i]);
      }
    }
  }

  method CanFinish(numCourses: nat, ps: Prereqs) returns (ok: bool, ghost order: seq<nat>)
    requires InRange(numCourses, ps)
    ensures ok <==> Acyclic(ps)
    ensures ok ==> Topological(ps, order) && forall v: nat :: v < numCourses ==> v in order
    ensures ok ==> forall i, k :: 0 <= i < |order| && 0 <= k < |ps| && ps[k].0 == order[i] ==> ps[k].1 in order[..i]
    ensures !ok ==> exists c :: Cycle(ps, c) && forall v :: v in c ==> v !in order
  {
    var n := numCourses;
    var graph, indegree := Build(n, ps);
    var q := Ready(n, indegree);
    order := [];
    var count := 0;
    assert [] + q == q && Taken([]) == {};
    while q != []
      invariant KahnInv(n, ps, order, q, indegree[..]) && count == |order|
      invariant forall v :: 0 <= v < n ==> graph[v] == Successors(ps, v)
      invariant forall v :: 0 <= v < n ==> indegree[v] == Pending(ps, Taken(order), v)
      decreases n - |order|
    {
      hide KahnInv, Relaxed, Successors, Pending, Taken;
      Dequeue(n, ps, order, q, indegree[..]);
      var cur := q[0];
      q := RelaxAll(n, ps, graph[cur], indegree, q[1..], cur, order);
      count := count + 1;
      order := order + [cur];
      OrderFits(n, ps, order, q, indegree[..]);
    }
    Verdict(n, ps, order, indegree[..]);
    InPairs(ps, order);
    ok := count == n;
  }

  lemma OrderFits(n: nat, ps: Prereqs, order: seq<nat>, q: seq<nat>, indegree: seq<int>)
    requires KahnInv(n, ps, order, q, indegree)
    ensures |order| <= n
  {
    var all := AllCourses(n);
    forall i | 0 <= i < |order| ensures order[i] < n {
      assert order[i] in order + q;
    }
    WalkFits(all, order);
  }
}
