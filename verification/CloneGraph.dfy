/** Clone Graph: depth-first with a memo map, and breadth-first with a queue. */
module CloneGraph {

  class Node {
    const val: int
    var neighbors: seq<Node>

    constructor (val: int)
      ensures this.val == val && neighbors == []
    {
      this.val := val;
      neighbors := [];
    }
  }

  // ---------------------------------------------------------------- graphs as values

  datatype Data = Data(val: int, neighbors: seq<Node>)

  type Graph = map<Node, Data>

  ghost function Snapshot(nodes: set<Node>): (g: Graph)
    reads nodes
    ensures g.Keys == nodes && forall o :: o in nodes ==> g[o] == Data(o.val, o.neighbors)
  {
    map o | o in nodes :: Data(o.val, o.neighbors)
  }

  /** Every edge stays inside the graph. */
  ghost predicate Closed(g: Graph) {
    forall o, i :: o in g && 0 <= i < |g[o].neighbors| ==> g[o].neighbors[i] in g
  }

  /** `o` is where following the edge numbers `path` from `start` leads. */
  ghost predicate Walk(g: Graph, start: Node, path: seq<nat>, o: Node)
    decreases |path|
  {
    if path == [] then o == start && o in g else
      var p, i := path[..|path| - 1], path[|path| - 1];
      exists mid :: mid in g && Walk(g, start, p, mid) && i < |g[mid].neighbors| && g[mid].neighbors[i] == o
  }

  ghost predicate Reached(g: Graph, start: Node, o: Node) {
    exists path :: Walk(g, start, path, o)
  }

  lemma ReachedStart(g: Graph, start: Node)
    requires start in g
    ensures Reached(g, start, start)
  {
    assert Walk(g, start, [], start);
  }

  lemma ReachedEdge(g: Graph, start: Node, o: Node, i: nat)
    requires o in g && Reached(g, start, o) && i < |g[o].neighbors|
    ensures Reached(g, start, g[o].neighbors[i])
  {
    var path :| Walk(g, start, path, o);
    assert (path + [i])[..|path|] == path;
    assert Walk(g, start, path + [i], g[o].neighbors[i]);
  }

  /** `f` maps the nodes of `g` that it covers to clones in `h`: same values, neighbours in order. */
  ghost predicate Copies(g: Graph, h: Graph, f: map<Node, Node>, o: Node)
    requires o in g && o in f
  {
    && f[o] in h && h[f[o]].val == g[o].val
    && |h[f[o]].neighbors| == |g[o].neighbors|
    && forall i :: 0 <= i < |g[o].neighbors| ==> g[o].neighbors[i] in f && h[f[o]].neighbors[i] == f[g[o].neighbors[i]]
  }

  ghost predicate Injective(f: map<Node, Node>) {
    forall o, p :: o in f && p in f && f[o] == f[p] ==> o == p
  }

  /** A clone: an isomorphism between what `start` reaches in `g` and all of `h`. */
  ghost predicate IsClone(g: Graph, start: Node, h: Graph, f: map<Node, Node>) {
    && f.Keys <= g.Keys && start in f && Injective(f) && h.Keys == f.Values
    && (forall o :: o in g ==> (o in f <==> Reached(g, start, o)))
    && forall o :: o in f ==> Copies(g, h, f, o)
  }

  /** Nothing outside a set that contains the start and all its nodes' neighbours is reached. */
  lemma {:induction false} ReachedInside(g: Graph, start: Node, f: map<Node, Node>, path: seq<nat>, o: Node)
    requires start in f && Walk(g, start, path, o)
    requires forall p, i :: p in f && p in g && 0 <= i < |g[p].neighbors| ==> g[p].neighbors[i] in f
    ensures o in f
    decreases |path|
  {
    if path != [] {
      var p, i := path[..|path| - 1], path[|path| - 1];
      var mid :| mid in g && Walk(g, start, p, mid) && i < |g[mid].neighbors| && g[mid].neighbors[i] == o;
      ReachedInside(g, start, f, p, mid);
    }
  }

  /** Walking the clone mirrors walking the original, edge for edge. */
  lemma {:induction false} WalksAgree(g: Graph, start: Node, h: Graph, f: map<Node, Node>, path: seq<nat>, o: Node)
    requires IsClone(g, start, h, f) && Closed(g) && o in f
    ensures Walk(g, start, path, o) <==> Walk(h, f[start], path, f[o])
    decreases |path|
  {
    if path != [] {
      var p, i := path[..|path| - 1], path[|path| - 1];
      if Walk(g, start, path, o) {
        var mid :| mid in g && Walk(g, start, p, mid) && i < |g[mid].neighbors| && g[mid].neighbors[i] == o;
        assert Reached(g, start, mid);
        WalksAgree(g, start, h, f, p, mid);
        assert Copies(g, h, f, mid);
      }
      if Walk(h, f[start], path, f[o]) {
        var mid' :| mid' in h && Walk(h, f[start], p, mid') && i < |h[mid'].neighbors| && h[mid'].neighbors[i] == f[o];
        var mid :| mid in f && f[mid] == mid';
        WalksAgree(g, start, h, f, p, mid);
        assert Copies(g, h, f, mid);
      }
    }
  }

  // ---------------------------------------------------------------- depth first

  /** The clone of `o` is finished. */
  ghost predicate Done(g: Graph, f: map<Node, Node>, o: Node)
    requires o in g && o in f
    reads f[o]
  {
    && f[o].val == g[o].val && |f[o].neighbors| == |g[o].neighbors|
    && forall i :: 0 <= i < |g[o].neighbors| ==> g[o].neighbors[i] in f && f[o].neighbors[i] == f[g[o].neighbors[i]]
  }

  ghost predicate MemoInv(g: Graph, f: map<Node, Node>, start: Node) {
    && f.Keys <= g.Keys && Injective(f) && f.Values !! g.Keys
    && forall o :: o in f ==> Reached(g, start, o)
  }

  /** The map gains entries and loses or changes none. */
  ghost predicate Grows(f: map<Node, Node>, f': map<Node, Node>) {
    f.Keys <= f'.Keys && forall o :: o in f ==> f'[o] == f[o]
  }

  /** The clone of `o` has its first `n` neighbours. */
  ghost predicate Partly(g: Graph, f: map<Node, Node>, o: Node, n: nat)
    requires o in g && o in f
    reads f[o]
  {
    && f[o].val == g[o].val && |f[o].neighbors| == n <= |g[o].neighbors|
    && forall i :: 0 <= i < n ==> g[o].neighbors[i] in f && f[o].neighbors[i] == f[g[o].neighbors[i]]
  }

  class Solution {
    var nodeMap: map<Node, Node>

    constructor ()
      ensures nodeMap == map[]
    {
      nodeMap := map[];
    }

    /** One call of the recursion: `open` are the nodes whose clones are still being completed. */
    method CloneFrom(node: Node, ghost g: Graph, ghost start: Node, ghost open: set<Node>) returns (clone: Node)
      requires g == Snapshot(g.Keys) && Closed(g) && node in g && Reached(g, start, node)
      requires MemoInv(g, nodeMap, start)
      requires forall o :: o in nodeMap && o !in open ==> Done(g, nodeMap, o)
      modifies this
      ensures MemoInv(g, nodeMap, start) && node in nodeMap && clone == nodeMap[node]
      ensures Grows(old(nodeMap), nodeMap)
      ensures forall o :: o in nodeMap && o !in old(nodeMap) ==> fresh(nodeMap[o])
      ensures forall o :: o in nodeMap && o !in open ==> Done(g, nodeMap, o)
      decreases g.Keys - nodeMap.Keys, 1
    {
      if node in nodeMap {
        return nodeMap[node];
      }
      hide Reached, Closed, Snapshot, Done, MemoInv;
      clone := Remember(node, g, start, open);
      assert node in g.Keys - old(nodeMap.Keys) && g.Keys - nodeMap.Keys <= g.Keys - old(nodeMap.Keys);
      CloneNeighbours(node, clone, g, start, open);
    }

    /** A bare clone, in the map before its neighbours are visited. */
    method Remember(node: Node, ghost g: Graph, ghost start: Node, ghost open: set<Node>) returns (clone: Node)
      requires node in g && Reached(g, start, node) && MemoInv(g, nodeMap, start) && node !in nodeMap
      requires forall o :: o in nodeMap && o !in open ==> Done(g, nodeMap, o)
      modifies this
      ensures fresh(clone) && clone.val == node.val && clone.neighbors == []
      ensures nodeMap == old(nodeMap)[node := clone] && MemoInv(g, nodeMap, start)
      ensures forall o :: o in nodeMap && o !in open && o != node ==> Done(g, nodeMap, o)
    {
      hide Reached;
      clone := new Node(node.val);
      nodeMap := nodeMap[node := clone];
    }

    /** The loop of the call that has just created `clone`. */
    method CloneNeighbours(node: Node, clone: Node, ghost g: Graph, ghost start: Node, ghost open: set<Node>)
      requires g == Snapshot(g.Keys) && Closed(g) && node in g && Reached(g, start, node)
      requires MemoInv(g, nodeMap, start) && node in nodeMap && nodeMap[node] == clone
      requires clone.val == node.val && clone.neighbors == []
      requires forall o :: o in nodeMap && o !in open && o != node ==> Done(g, nodeMap, o)
      modifies this, clone
      ensures MemoInv(g, nodeMap, start) && node in nodeMap && clone == nodeMap[node]
      ensures Grows(old(nodeMap), nodeMap)
      ensures forall o :: o in nodeMap && o !in old(nodeMap) ==> fresh(nodeMap[o])
      ensures forall o :: o in nodeMap && o !in open ==> Done(g, nodeMap, o)
      decreases g.Keys - nodeMap.Keys, 2
    {
      hide Reached, Closed, Snapshot;
      assert Partly(g, nodeMap, node, 0);
      for i := 0 to |node.neighbors|
        invariant MemoInv(g, nodeMap, start) && node in nodeMap && nodeMap[node] == clone
        invariant Grows(old(nodeMap), nodeMap)
        invariant forall o :: o in nodeMap && o !in old(nodeMap) ==> fresh(nodeMap[o])
        invariant g == Snapshot(g.Keys)
        invariant forall o :: o in nodeMap && o !in open && o != node ==> Done(g, nodeMap, o)
        invariant Partly(g, nodeMap, node, i)
      {
        assert g.Keys - nodeMap.Keys <= g.Keys - old(nodeMap.Keys);
        hide Done, MemoInv, Partly, Grows;
        ReachedEdge(g, start, node, i);
        EdgeInside(g, node, i);
        ghost var before := nodeMap;
        var copy := CloneFrom(node.neighbors[i], g, start, open + {node});
        GrowsOn(g, old(nodeMap), before, nodeMap, node, i);
        Append(clone, copy, node, i, g, start, nodeMap, open);
      }
    }
  }

  /** `clone->neighbors.push_back(...)` completes no other clone and spoils none. */
  method Append(clone: Node, copy: Node, ghost node: Node, ghost i: nat, ghost g: Graph, ghost start: Node,
                ghost f: map<Node, Node>, ghost open: set<Node>)
    requires g == Snapshot(g.Keys) && node in g && MemoInv(g, f, start) && node in f && f[node] == clone
    requires Partly(g, f, node, i) && i < |g[node].neighbors|
    requires g[node].neighbors[i] in f && f[g[node].neighbors[i]] == copy
    requires forall o :: o in f && o !in open && o != node ==> Done(g, f, o)
    modifies clone
    ensures g == Snapshot(g.Keys)
    ensures Partly(g, f, node, i + 1)
    ensures forall o :: o in f && o !in open && o != node ==> Done(g, f, o)
  {
    hide Reached;
    assert clone in f.Values;
    assert forall o :: o in f && o != node ==> f[o] != clone;
    clone.neighbors := clone.neighbors + [copy];
  }

  lemma GrowsOn(g: Graph, f: map<Node, Node>, f': map<Node, Node>, f'': map<Node, Node>, o: Node, n: nat)
    requires Grows(f, f') && Grows(f', f'') && o in g && o in f' && Partly(g, f', o, n)
    ensures Grows(f, f'') && o in f'' && f''[o] == f'[o] && Partly(g, f'', o, n)
    ensures forall x :: x in f' ==> x in f'' && f''[x] == f'[x]
  {
  }

  lemma EdgeInside(g: Graph, o: Node, i: nat)
    requires Closed(g) && o in g && i < |g[o].neighbors|
    ensures g[o].neighbors[i] in g
  {
  }

  /** A complete memo map is a clone of what the start reaches. */
  lemma CompleteIsClone(g: Graph, start: Node, f: map<Node, Node>)
    requires MemoInv(g, f, start) && start in f && Closed(g)
    requires forall o :: o in f ==> Done(g, f, o)
    ensures IsClone(g, start, Snapshot(f.Values), f)
  {
    forall o | o in g ensures o in f <==> Reached(g, start, o) {
      if Reached(g, start, o) {
        var path :| Walk(g, start, path, o);
        ReachedInside(g, start, f, path, o);
      }
    }
  }

  /** The depth-first solution, called on a fresh `Solution`. `graph` is any finite set of nodes that
      contains the given one and all their neighbours. */
  method CloneDepthFirst(node: Node?, ghost graph: set<Node>) returns (r: Node?, ghost f: map<Node, Node>)
    requires node != null ==> node in graph && Closed(Snapshot(graph))
    ensures r == null <==> node == null
    ensures Snapshot(graph) == old(Snapshot(graph))
    ensures node != null ==> r != null && node in f && f[node] == r && IsClone(Snapshot(graph), node, Snapshot(f.Values), f)
    ensures node != null ==> (forall o :: o in f ==> fresh(f[o])) && f.Values !! graph
  {
    r, f := null, map[];
    if node == null {
      return;
    }
    var solution := new Solution();
    ghost var g := Snapshot(graph);
    ReachedStart(g, node);
    r := solution.CloneFrom(node, g, node, {});
    f := solution.nodeMap;
    CompleteIsClone(g, node, f);
  }

  // ---------------------------------------------------------------- breadth first

  /** Nodes still queued have a bare clone; `cur` is being completed; the others are finished. */
  ghost predicate QueueInv(g: Graph, f: map<Node, Node>, q: seq<Node>, cur: set<Node>)
    requires f.Keys <= g.Keys
    reads f.Values
  {
    && (forall i, j :: 0 <= i < j < |q| ==> q[i] != q[j])
    && (forall i :: 0 <= i < |q| ==> q[i] in f && q[i] !in cur && f[q[i]].neighbors == [] && f[q[i]].val == g[q[i]].val)
    && (forall o :: o in f && o !in q && o !in cur ==> Done(g, f, o))
  }

  /** A neighbour not seen before gets a bare clone and joins the queue. */
  method Discover(nei: Node, ghost g: Graph, ghost start: Node, ghost cur: Node, ghost i: nat, mp0: map<Node, Node>, q0: seq<Node>)
    returns (mp: map<Node, Node>, q: seq<Node>)
    requires g == Snapshot(g.Keys) && nei in g && Reached(g, start, nei)
    requires MemoInv(g, mp0, start) && cur in mp0 && QueueInv(g, mp0, q0, {cur}) && Partly(g, mp0, cur, i)
    ensures MemoInv(g, mp, start) && QueueInv(g, mp, q, {cur}) && nei in mp && cur in mp && Partly(g, mp, cur, i)
    ensures Grows(mp0, mp)
    ensures forall o :: o in mp && o !in mp0 ==> fresh(mp[o])
    ensures NoReturn(mp0, q0, q)
  {
    hide Reached, Snapshot;
    mp, q := mp0, q0;
    if nei !in mp {
      var clone := new Node(nei.val);
      mp := mp[nei := clone];
      q := q + [nei];
    }
  }

  /** What was known and not queued stays out of the queue. */
  ghost predicate NoReturn(f: map<Node, Node>, q: seq<Node>, q': seq<Node>) {
    forall o :: o in f && o !in q ==> o !in q'
  }

  /** `mp[cur]->neighbors.push_back(mp[nei])` */
  method Connect(cur: Node, clone: Node, i: nat, ghost g: Graph, ghost start: Node, mp: map<Node, Node>, ghost q: seq<Node>)
    requires g == Snapshot(g.Keys) && cur in g && i < |g[cur].neighbors| && g[cur].neighbors[i] in mp
    requires MemoInv(g, mp, start) && cur in mp && mp[cur] == clone
    requires QueueInv(g, mp, q, {cur}) && Partly(g, mp, cur, i)
    modifies clone
    ensures g == Snapshot(g.Keys)
    ensures QueueInv(g, mp, q, {cur})
    ensures Partly(g, mp, cur, i + 1)
  {
    hide Reached;
    assert clone in mp.Values;
    assert forall o :: o in mp && o != cur ==> mp[o] != clone;
    clone.neighbors := clone.neighbors + [mp[cur.neighbors[i]]];
  }

  /** The body of the loop over the neighbours of the dequeued node. */
  method Visit(cur: Node, clone: Node, i: nat, ghost g: Graph, ghost start: Node, mp0: map<Node, Node>, q0: seq<Node>)
    returns (mp: map<Node, Node>, q: seq<Node>)
    requires g == Snapshot(g.Keys) && Closed(g) && cur in g && i < |g[cur].neighbors| && Reached(g, start, cur)
    requires MemoInv(g, mp0, start) && cur in mp0 && mp0[cur] == clone
    requires QueueInv(g, mp0, q0, {cur}) && Partly(g, mp0, cur, i)
    modifies clone
    ensures MemoInv(g, mp, start) && g == Snapshot(g.Keys) && Grows(mp0, mp)
    ensures forall o :: o in mp && o !in mp0 ==> fresh(mp[o])
    ensures QueueInv(g, mp, q, {cur}) && Partly(g, mp, cur, i + 1)
    ensures NoReturn(mp0, q0, q)
  {
    hide Reached, Snapshot, Closed, QueueInv, Partly;
    ReachedEdge(g, start, cur, i);
    EdgeInside(g, cur, i);
    mp, q := Discover(cur.neighbors[i], g, start, cur, i, mp0, q0);
    Connect(cur, clone, i, g, start, mp, q);
  }

  /** The loop over the neighbours of the dequeued node. */
  method Complete(cur: Node, ghost g: Graph, ghost start: Node, mp0: map<Node, Node>, q0: seq<Node>)
    returns (mp: map<Node, Node>, q: seq<Node>)
    requires g == Snapshot(g.Keys) && Closed(g) && cur in g && Reached(g, start, cur)
    requires MemoInv(g, mp0, start) && cur in mp0
    requires QueueInv(g, mp0, q0, {cur}) && Partly(g, mp0, cur, 0)
    modifies mp0[cur]
    ensures MemoInv(g, mp, start) && g == Snapshot(g.Keys) && Grows(mp0, mp)
    ensures forall o :: o in mp && o !in mp0 ==> fresh(mp[o])
    ensures QueueInv(g, mp, q, {}) && NoReturn(mp0, q0, q)
  {
    hide Reached, Snapshot, Closed;
    mp, q := mp0, q0;
    for i := 0 to |cur.neighbors|
      invariant g == Snapshot(g.Keys) && MemoInv(g, mp, start) && Grows(mp0, mp)
      invariant forall o :: o in mp && o !in mp0 ==> fresh(mp[o])
      invariant QueueInv(g, mp, q, {cur}) && Partly(g, mp, cur, i)
      invariant NoReturn(mp0, q0, q)
    {
      hide QueueInv, Partly;
      mp, q := Visit(cur, mp0[cur], i, g, start, mp, q);
    }
  }

  lemma TakeFront(g: Graph, f: map<Node, Node>, q: seq<Node>)
    requires f.Keys <= g.Keys && q != [] && QueueInv(g, f, q, {})
    ensures q[0] in f && q[0] !in q[1..] && QueueInv(g, f, q[1..], {q[0]}) && Partly(g, f, q[0], 0)
  {
    assert q == [q[0]] + q[1..];
  }

  /** Finished nodes have clones and never come back into the queue. */
  ghost predicate Retired(f: map<Node, Node>, q: seq<Node>, finished: set<Node>) {
    finished <= f.Keys && forall o :: o in finished ==> o !in q
  }

  lemma Retire(finished: set<Node>, f: map<Node, Node>, f': map<Node, Node>, cur: Node, q: seq<Node>, q': seq<Node>)
    requires NoReturn(f, q, q') && cur in f && cur !in q && Grows(f, f') && Retired(f, [cur] + q, finished)
    ensures cur !in finished && Retired(f', q', finished + {cur}) && finished + {cur} <= f'.Keys
  {
    assert cur in [cur] + q && forall o :: o in q ==> o in [cur] + q;
  }

  /** One round of the outer loop: the node at the front of the queue is completed. */
  method Serve(ghost g: Graph, ghost start: Node, mp0: map<Node, Node>, q0: seq<Node>, ghost finished0: set<Node>)
    returns (mp: map<Node, Node>, q: seq<Node>, ghost finished: set<Node>)
    requires g == Snapshot(g.Keys) && Closed(g) && MemoInv(g, mp0, start) && start in mp0
    requires q0 != [] && QueueInv(g, mp0, q0, {}) && Retired(mp0, q0, finished0)
    modifies mp0.Values
    ensures g == Snapshot(g.Keys) && MemoInv(g, mp, start) && start in mp
    ensures forall o :: o in mp ==> mp[o] in mp0.Values || fresh(mp[o])
    ensures QueueInv(g, mp, q, {}) && Retired(mp, q, finished)
    ensures finished0 < finished <= g.Keys
  {
    hide Reached, Snapshot, Closed, QueueInv, Partly, NoReturn, Retired;
    var cur := q0[0];
    TakeFront(g, mp0, q0);
    assert q0 == [cur] + q0[1..];
    mp, q := Complete(cur, g, start, mp0, q0[1..]);
    finished := finished0 + {cur};
    Retire(finished0, mp0, mp, cur, q0[1..], q);
  }

  method CloneBreadthFirst(node: Node?, ghost graph: set<Node>) returns (r: Node?, ghost f: map<Node, Node>)
    requires node != null ==> node in graph && Closed(Snapshot(graph))
    ensures r == null <==> node == null
    ensures Snapshot(graph) == old(Snapshot(graph))
    ensures node != null ==> r != null && node in f && f[node] == r && IsClone(Snapshot(graph), node, Snapshot(f.Values), f)
    ensures node != null ==> (forall o :: o in f ==> fresh(f[o])) && f.Values !! graph
  {
    r, f := null, map[];
    if node == null {
      return;
    }
    ghost var g := Snapshot(graph);
    ReachedStart(g, node);
    var mp: map<Node, Node>, q: seq<Node>;
    mp, q := Start(node, g);
    ghost var finished: set<Node> := {};
    while q != []
      invariant g == Snapshot(g.Keys) && MemoInv(g, mp, node) && node in mp
      invariant forall o :: o in mp ==> fresh(mp[o])
      invariant QueueInv(g, mp, q, {}) && Retired(mp, q, finished)
      decreases g.Keys - finished
    {
      hide Reached, Snapshot, Closed, QueueInv, Retired;
      mp, q, finished := Serve(g, node, mp, q, finished);
    }
    r, f := mp[node], mp;
    CompleteIsClone(g, node, f);
  }

  method Start(node: Node, ghost g: Graph) returns (mp: map<Node, Node>, q: seq<Node>)
    requires g == Snapshot(g.Keys) && node in g && Reached(g, node, node)
    ensures MemoInv(g, mp, node) && mp.Keys == {node} && fresh(mp[node]) && QueueInv(g, mp, q, {})
  {
    hide Reached, Snapshot;
    var first := new Node(node.val);
    mp, q := map[node := first], [node];
  }
}
