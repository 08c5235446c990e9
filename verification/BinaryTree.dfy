/** The binary tree: construction from level order with nulls, from a complete array, and the
    level-order traversal that reads it back. */
module BinaryTree {
  import opened Words
  import opened Wrappers

  class Node {
    const val: int
    var left: Node?
    var right: Node?

    constructor (val: int)
      ensures this.val == val && left == null && right == null
    {
      this.val := val;
      left, right := null, null;
    }
  }

  type Slots = seq<Option<int>>

  // ---------------------------------------------------------------- the level-order notation

  /** The values of the non-null slots, in order. */
  function NonNull(s: Slots): (r: seq<int>)
    ensures |r| <= |s|
  {
    if s == [] then [] else
      NonNull(s[..|s| - 1]) + match s[|s| - 1] case Some(v) => [v] case None => []
  }

  /** Which node slot `i` describes: as many as there are non-null slots before it. */
  function Rank(s: Slots, i: nat): nat
    requires i <= |s|
  {
    |NonNull(s[..i])|
  }

  lemma NonNullStep(s: Slots, i: nat)
    requires i < |s|
    ensures NonNull(s[..i + 1]) == NonNull(s[..i]) + match s[i] case Some(v) => [v] case None => []
  {
    assert s[..i + 1][..i] == s[..i];
  }

  lemma RankStep(s: Slots, i: nat)
    requires i < |s|
    ensures Rank(s, i + 1) == Rank(s, i) + if s[i].Some? then 1 else 0
  {
    NonNullStep(s, i);
  }

  lemma {:induction false} RankMonotone(s: Slots, i: nat, j: nat)
    requires i <= j <= |s|
    ensures Rank(s, i) <= Rank(s, j)
    ensures i < j && s[i].Some? ==> Rank(s, i) < Rank(s, j)
    decreases j - i
  {
    if i < j {
      RankStep(s, i);
      RankMonotone(s, i + 1, j);
    }
  }

  /** How many nodes are known once the children of the first `h` have been read. */
  function Known(s: Slots, c: nat, h: nat): nat
    requires c <= |s|
  {
    Rank(s, if 2 * h + 1 < c then 2 * h + 1 else c)
  }

  /** `c` slots are consumed: reading goes on, a pair of slots per node, while there is a node whose
      children have not been read. */
  ghost predicate Consumed(s: Slots, c: nat) {
    && c <= |s|
    && (c == |s| || c == 2 * Rank(s, c) + 1)
    && forall h :: 0 <= h && 2 * h + 1 < c ==> Rank(s, 2 * h + 1) > h
  }

  lemma ConsumedUnique(s: Slots, c: nat, d: nat)
    requires Consumed(s, c) && Consumed(s, d)
    ensures c == d
  {
  }

  // ---------------------------------------------------------------- trees in the heap

  /** The child that slot `i` describes. */
  ghost function Kid(s: Slots, c: nat, nodes: seq<Node>, i: nat): Node?
    requires c <= |s|
  {
    if i < c && s[i].Some? && Rank(s, i) < |nodes| then nodes[Rank(s, i)] else null
  }

  /** `nodes`, in creation order, are the nodes of the first `c` slots, linked as those describe:
      slots `2h+1` and `2h+2` are the children of node `h`. */
  ghost predicate Shape(s: Slots, c: nat, nodes: seq<Node>)
    reads nodes
  {
    && c <= |s|
    && Values(nodes) == NonNull(s[..c])
    && (forall h, k :: 0 <= h < k < |nodes| ==> nodes[h] != nodes[k])
    && forall h :: 0 <= h < |nodes| ==> Links(s, c, nodes, h)
  }

  ghost function Values(nodes: seq<Node>): (vs: seq<int>)
    ensures |vs| == |nodes| && forall i :: 0 <= i < |vs| ==> vs[i] == nodes[i].val
  {
    seq(|nodes|, i requires 0 <= i < |nodes| => nodes[i].val)
  }

  ghost predicate Links(s: Slots, c: nat, nodes: seq<Node>, k: nat)
    requires c <= |s| && k < |nodes|
    reads nodes[k]
  {
    nodes[k].left == Kid(s, c, nodes, 2 * k + 1) && nodes[k].right == Kid(s, c, nodes, 2 * k + 2)
  }

  /** Every node that exists is known before its turn comes. */
  lemma KnownAhead(s: Slots, c: nat, h: nat)
    requires Consumed(s, c) && h < Rank(s, c)
    ensures Known(s, c, h) > h
  {
  }

  /** What slot `j` contributes to the nodes in creation order. */
  lemma SlotNodes(s: Slots, c: nat, nodes: seq<Node>, j: nat)
    requires c <= |s| && |nodes| == Rank(s, c)
    ensures var lo, hi := Rank(s, if j < c then j else c), Rank(s, if j + 1 < c then j + 1 else c);
            && lo <= hi <= |nodes|
            && nodes[lo..hi] == if Kid(s, c, nodes, j) != null then [Kid(s, c, nodes, j)] else []
  {
    hide NonNull, Rank;
    if j < c {
      RankStep(s, j);
      RankMonotone(s, j + 1, c);
    }
  }

  lemma SliceJoin<T>(l: seq<T>, lo: nat, mid: nat, hi: nat, a: seq<T>, b: seq<T>)
    requires lo <= mid <= hi <= |l| && l[lo..mid] == a && l[mid..hi] == b
    ensures l[lo..hi] == a + b
  {
  }

  /** Reading the children of node `h`: they are the next nodes. */
  lemma KnownStep(s: Slots, c: nat, nodes: seq<Node>, h: nat)
    requires Shape(s, c, nodes) && h < |nodes|
    ensures Known(s, c, h) <= Known(s, c, h + 1) <= |nodes|
    ensures nodes[Known(s, c, h)..Known(s, c, h + 1)] ==
            (if nodes[h].left != null then [nodes[h].left] else []) + (if nodes[h].right != null then [nodes[h].right] else [])
  {
    ShapeSize(s, c, nodes);
    assert Links(s, c, nodes, h);
    hide NonNull, Rank, Kid, Shape, Links;
    SlotNodes(s, c, nodes, 2 * h + 1);
    SlotNodes(s, c, nodes, 2 * h + 2);
    SliceJoin(nodes, Known(s, c, h), Rank(s, if 2 * h + 2 < c then 2 * h + 2 else c), Known(s, c, h + 1),
              if nodes[h].left != null then [nodes[h].left] else [], if nodes[h].right != null then [nodes[h].right] else []);
  }

  lemma ShapeSize(s: Slots, c: nat, nodes: seq<Node>)
    requires Shape(s, c, nodes)
    ensures |nodes| == Rank(s, c)
  {
  }

  lemma KidBeyond(s: Slots, c: nat, nodes: seq<Node>, j: nat)
    requires c <= |s| && j >= c
    ensures Kid(s, c, nodes, j) == null
  {
  }

  lemma KidNew(s: Slots, i: nat, more: seq<Node>)
    requires i < |s| && |more| == Rank(s, i + 1)
    ensures Kid(s, i + 1, more, i) == if s[i].Some? then more[|more| - 1] else null
  {
    hide NonNull, Rank;
    RankStep(s, i);
  }

  /** A null slot adds nothing. */
  lemma ShapeSkip(s: Slots, i: nat, nodes: seq<Node>)
    requires i < |s| && Shape(s, i, nodes) && s[i].None?
    ensures Shape(s, i + 1, nodes)
  {
    hide NonNull, Rank, Kid;
    NonNullStep(s, i);
    RankStep(s, i);
    ShapeSize(s, i, nodes);
    KidBeyond(s, i, nodes, i);
    KidNew(s, i, nodes);
    var c := i + 1;
    forall k | 0 <= k < |nodes| ensures Links(s, c, nodes, k) {
      assert Links(s, i, nodes, k);
      if 2 * k + 1 != i { KidGrow(s, i, nodes, nodes, 2 * k + 1); }
      if 2 * k + 2 != i { KidGrow(s, i, nodes, nodes, 2 * k + 2); }
    }
  }

  /** A value adds the next node, linked from the parent that slot `i` belongs to. */
  lemma ShapeGrow(s: Slots, i: nat, nodes: seq<Node>, child: Node)
    requires i < |s| && s[i].Some? && child.val == s[i].value && child.left == null && child.right == null
    requires Values(nodes) == NonNull(s[..i]) && i < 2 * |nodes| + 1
    requires (forall h, k :: 0 <= h < k < |nodes| ==> nodes[h] != nodes[k]) && child !in nodes
    requires forall k :: 0 <= k < |nodes| ==>
               && nodes[k].left == (if 2 * k + 1 == i then child else Kid(s, i, nodes, 2 * k + 1))
               && nodes[k].right == (if 2 * k + 2 == i then child else Kid(s, i, nodes, 2 * k + 2))
    ensures Shape(s, i + 1, nodes + [child])
  {
    assert |nodes| == Rank(s, i);
    hide NonNull, Rank, Kid;
    var more := nodes + [child];
    NonNullStep(s, i);
    RankStep(s, i);
    KidNew(s, i, more);
    var c := i + 1;
    forall k | 0 <= k < |more| ensures Links(s, c, more, k) {
      if k == |nodes| {
        KidBeyond(s, i + 1, more, 2 * k + 1);
        KidBeyond(s, i + 1, more, 2 * k + 2);
      } else {
        if 2 * k + 1 != i { KidGrow(s, i, nodes, more, 2 * k + 1); }
        if 2 * k + 2 != i { KidGrow(s, i, nodes, more, 2 * k + 2); }
      }
    }
  }

  lemma ShapeLinks(s: Slots, c: nat, nodes: seq<Node>)
    requires Shape(s, c, nodes)
    ensures c <= |s| && Values(nodes) == NonNull(s[..c])
    ensures forall h, k :: 0 <= h < k < |nodes| ==> nodes[h] != nodes[k]
    ensures forall k :: 0 <= k < |nodes| ==> nodes[k].left == Kid(s, c, nodes, 2 * k + 1)
    ensures forall k :: 0 <= k < |nodes| ==> nodes[k].right == Kid(s, c, nodes, 2 * k + 2)
  {
    forall k | 0 <= k < |nodes|
      ensures nodes[k].left == Kid(s, c, nodes, 2 * k + 1) && nodes[k].right == Kid(s, c, nodes, 2 * k + 2)
    {
      assert Links(s, c, nodes, k);
    }
  }

  /** Taking in one more slot leaves the children described by the others as they were. */
  lemma KidGrow(s: Slots, i: nat, nodes: seq<Node>, more: seq<Node>, j: nat)
    requires i < |s| && nodes <= more && |nodes| == Rank(s, i) && |more| == Rank(s, i + 1) && j != i
    ensures Kid(s, i, nodes, j) == Kid(s, i + 1, more, j)
  {
    hide NonNull, Rank;
    if j < i {
      RankMonotone(s, j, i);
    }
  }

  // ---------------------------------------------------------------- height of a complete tree

  function Max(a: nat, b: nat): nat { if a < b then b else a }

  function Min(a: nat, b: nat): nat { if a < b then a else b }

  function BitLength(n: nat): nat {
    if n == 0 then 0 else 1 + BitLength(n / 2)
  }

  /** Height below position `h` of a complete tree of `n` nodes. */
  function HeightAt(n: nat, h: nat): nat
    decreases n - h
  {
    if h >= n then 0 else 1 + Max(HeightAt(n, 2 * h + 1), HeightAt(n, 2 * h + 2))
  }

  /** How often `a` can be doubled without exceeding `n`, counting `a` itself. */
  function Doublings(n: nat, a: nat): nat
    requires a > 0
    decreases n - a
  {
    if a > n then 0 else 1 + Doublings(n, 2 * a)
  }

  lemma {:induction false} DoublingsAntitone(n: nat, a: nat, b: nat)
    requires 0 < a <= b
    ensures Doublings(n, b) <= Doublings(n, a)
    decreases n - a
  {
    if b <= n {
      DoublingsAntitone(n, 2 * a, 2 * b);
    }
  }

  lemma {:induction false} LeftSpineIsDeepest(n: nat, h: nat)
    ensures HeightAt(n, h) == Doublings(n, h + 1)
    decreases n - h
  {
    if h < n {
      LeftSpineIsDeepest(n, 2 * h + 1);
      LeftSpineIsDeepest(n, 2 * h + 2);
      DoublingsAntitone(n, 2 * h + 2, 2 * h + 3);
    }
  }

  lemma {:induction false} HalveDoublings(n: nat, a: nat)
    requires a > 0
    ensures Doublings(n, 2 * a) == Doublings(n / 2, a)
    decreases n - a
  {
    if a <= n / 2 {
      HalveDoublings(n, 2 * a);
    }
  }

  lemma {:induction false} DoublingsIsBitLength(n: nat)
    ensures Doublings(n, 1) == BitLength(n)
  {
    if n > 0 {
      HalveDoublings(n, 1);
      DoublingsIsBitLength(n / 2);
    }
  }

  /** `n` is below two to the number of its binary digits, and not below half of that. */
  lemma {:induction false} BitLengthBounds(n: nat)
    ensures n < Pow2(BitLength(n)) && (n > 0 ==> 2 * n >= Pow2(BitLength(n)))
  {
    if n > 0 {
      BitLengthBounds(n / 2);
    }
  }

  /** A complete tree of `n` nodes is as high as `n` has binary digits. */
  lemma CompleteHeight(n: nat)
    ensures HeightAt(n, 0) == BitLength(n)
    ensures n < Pow2(HeightAt(n, 0)) && (n > 0 ==> 2 * n >= Pow2(HeightAt(n, 0)))
  {
    LeftSpineIsDeepest(n, 0);
    DoublingsIsBitLength(n);
    BitLengthBounds(n);
  }

  /** Height of the subtree described by slot `i`. */
  ghost function HeightSlot(s: Slots, c: nat, i: nat): nat
    requires Consumed(s, c)
    decreases if i < c then Rank(s, c) - Rank(s, i) else 0
  {
    if i >= c || s[i].None? then 0 else
      var h := Rank(s, i);
      RankMonotone(s, i, c);
      ChildRank(s, c, i, 2 * h + 1);
      ChildRank(s, c, i, 2 * h + 2);
      1 + Max(HeightSlot(s, c, 2 * h + 1), HeightSlot(s, c, 2 * h + 2))
  }

  lemma ChildRank(s: Slots, c: nat, i: nat, j: nat)
    requires Consumed(s, c) && i < c && 2 * Rank(s, i) + 1 <= j
    ensures j < c ==> Rank(s, i) < Rank(s, j) <= Rank(s, c)
  {
    if j < c {
      RankMonotone(s, 2 * Rank(s, i) + 1, j);
      RankMonotone(s, j, c);
    }
  }

  /** The notation of a complete tree: every slot has a value. */
  function Full(arr: seq<int>): (s: Slots)
    ensures |s| == |arr| && forall i :: 0 <= i < |s| ==> s[i] == Some(arr[i])
  {
    seq(|arr|, i requires 0 <= i < |arr| => Some(arr[i]))
  }

  lemma {:induction false} FullRank(arr: seq<int>, i: nat)
    requires i <= |arr|
    ensures Rank(Full(arr), i) == i && NonNull(Full(arr)[..i]) == arr[..i]
  {
    if i > 0 {
      FullRank(arr, i - 1);
      NonNullStep(Full(arr), i - 1);
      assert arr[..i] == arr[..i - 1] + [arr[i - 1]];
    }
  }

  lemma FullConsumed(arr: seq<int>)
    ensures Consumed(Full(arr), |arr|)
  {
    forall h | 0 <= h && 2 * h + 1 < |arr| ensures Rank(Full(arr), 2 * h + 1) > h {
      FullRank(arr, 2 * h + 1);
    }
  }

  lemma {:induction false} FullHeight(arr: seq<int>, i: nat)
    requires Consumed(Full(arr), |arr|)
    ensures HeightSlot(Full(arr), |arr|, i) == HeightAt(|arr|, i)
    decreases |arr| - i
  {
    hide NonNull, Rank;
    if i < |arr| {
      FullRank(arr, i);
      FullHeight(arr, 2 * i + 1);
      FullHeight(arr, 2 * i + 2);
    }
  }

  // ---------------------------------------------------------------- the tree, slot by slot

  /** The positions of the values among the first `c` slots. */
  ghost function Positions(s: Slots, c: nat): seq<nat>
    requires c <= |s|
  {
    if c == 0 then [] else Positions(s, c - 1) + if s[c - 1].Some? then [c - 1] else []
  }

  lemma {:induction false} PositionsRank(s: Slots, c: nat)
    requires c <= |s|
    ensures var at := Positions(s, c);
            && |at| == Rank(s, c)
            && (forall h :: 0 <= h < |at| ==> at[h] < c && s[at[h]].Some? && Rank(s, at[h]) == h)
            && (forall j: nat :: j < c && s[j].Some? ==> Rank(s, j) < |at| && at[Rank(s, j)] == j)
  {
    hide NonNull, Rank;
    if c > 0 {
      PositionsRank(s, c - 1);
      RankStep(s, c - 1);
    } else {
      RankNone(s);
    }
  }

  lemma RankNone(s: Slots)
    ensures Rank(s, 0) == 0
  {
  }

  lemma {:induction false} PositionsValues(s: Slots, c: nat)
    requires c <= |s|
    ensures |Positions(s, c)| == |NonNull(s[..c])|
    ensures forall h :: 0 <= h < |Positions(s, c)| ==> Positions(s, c)[h] < c && s[Positions(s, c)[h]] == Some(NonNull(s[..c])[h])
  {
    if c > 0 {
      PositionsValues(s, c - 1);
      NonNullStep(s, c - 1);
      hide NonNull;
    }
  }

  lemma {:induction false} PositionsGrow(s: Slots, c: nat)
    requires c <= |s|
    ensures forall h :: 0 <= h < |Positions(s, c)| ==> Positions(s, c)[h] < c
    ensures forall h, k :: 0 <= h < k < |Positions(s, c)| ==> Positions(s, c)[h] < Positions(s, c)[k]
  {
    if c > 0 {
      PositionsGrow(s, c - 1);
    }
  }

  /** `nodes[h]` carries the value of slot `at[h]`, and `at` lists the slots before `c` with a value. */
  ghost predicate Carries(s: Slots, c: nat, nodes: seq<Node>, at: seq<nat>)
    reads nodes
  {
    && |at| == |nodes| && c <= |s|
    && (forall h :: 0 <= h < |at| ==> at[h] < c && s[at[h]] == Some(nodes[h].val))
    && (forall h, k :: 0 <= h < k < |at| ==> at[h] < at[k] && nodes[h] != nodes[k])
    && (forall j :: 0 <= j < c && s[j].Some? ==> j in at)
  }

  /** Slots `2h+1` and `2h+2`, if they were read and have a value, describe the children of `nodes[h]`. */
  ghost predicate Parents(nodes: seq<Node>, at: seq<nat>)
    requires |at| == |nodes|
    reads nodes
  {
    && (forall h, k :: 0 <= h < |nodes| && 0 <= k < |nodes| ==>
          (nodes[h].left == nodes[k] <==> at[k] == 2 * h + 1) && (nodes[h].right == nodes[k] <==> at[k] == 2 * h + 2))
    && (forall h :: 0 <= h < |nodes| ==>
          (nodes[h].left == null <==> 2 * h + 1 !in at) && (nodes[h].right == null <==> 2 * h + 2 !in at))
  }

  lemma ShapeCarries(s: Slots, c: nat, nodes: seq<Node>)
    requires Shape(s, c, nodes)
    ensures Carries(s, c, nodes, Positions(s, c))
  {
    PositionsRank(s, c);
    PositionsValues(s, c);
    PositionsGrow(s, c);
    ShapeSize(s, c, nodes);
    hide NonNull, Rank, Positions, Links;
    var at := Positions(s, c);
    assert forall h :: 0 <= h < |at| ==> Values(nodes)[h] == nodes[h].val;
  }

  lemma ShapeKid(s: Slots, c: nat, nodes: seq<Node>, j: nat)
    requires Shape(s, c, nodes)
    ensures |Positions(s, c)| == |nodes|
    ensures Kid(s, c, nodes, j) == null <==> j !in Positions(s, c)
    ensures forall k :: 0 <= k < |nodes| ==> (Kid(s, c, nodes, j) == nodes[k] <==> Positions(s, c)[k] == j)
  {
    PositionsRank(s, c);
    ShapeSize(s, c, nodes);
    hide NonNull, Rank, Positions, Links;
  }

  lemma ShapeParents(s: Slots, c: nat, nodes: seq<Node>)
    requires Shape(s, c, nodes) && |Positions(s, c)| == |nodes|
    ensures Parents(nodes, Positions(s, c))
  {
    hide NonNull, Rank, Positions, Kid;
    forall h | 0 <= h < |nodes|
      ensures nodes[h].left == Kid(s, c, nodes, 2 * h + 1) && nodes[h].right == Kid(s, c, nodes, 2 * h + 2)
    {
      assert Links(s, c, nodes, h);
    }
    forall h | 0 <= h < |nodes|
      ensures (nodes[h].left == null <==> 2 * h + 1 !in Positions(s, c)) && (nodes[h].right == null <==> 2 * h + 2 !in Positions(s, c))
      ensures forall k :: 0 <= k < |nodes| ==> (nodes[h].left == nodes[k] <==> Positions(s, c)[k] == 2 * h + 1)
      ensures forall k :: 0 <= k < |nodes| ==> (nodes[h].right == nodes[k] <==> Positions(s, c)[k] == 2 * h + 2)
    {
      ShapeKid(s, c, nodes, 2 * h + 1);
      ShapeKid(s, c, nodes, 2 * h + 2);
    }
  }

  /** Reading stops at the end of the input, or when the last node has had its pair of slots; no slot is
      read before the node it belongs to has been created. */
  lemma ConsumedRead(s: Slots, c: nat, at: seq<nat>)
    requires Consumed(s, c) && at == Positions(s, c)
    ensures c == |s| || c == 2 * |at| + 1
    ensures forall h: nat :: 2 * h + 1 < c ==> h < |at| && at[h] < 2 * h + 1
  {
    PositionsRank(s, c);
    hide NonNull, Rank, Positions;
    forall h: nat | 2 * h + 1 < c ensures h < |at| && at[h] < 2 * h + 1 {
      RankMonotone(s, 2 * h + 1, c);
      if at[h] >= 2 * h + 1 {
        RankMonotone(s, 2 * h + 1, at[h]);
        assert false;
      }
    }
  }

  // ---------------------------------------------------------------- the class

  class BinaryTree {
    var root: Node?
    ghost var slots: Slots
    ghost var consumed: nat
    ghost var nodes: seq<Node>

    ghost predicate Valid()
      reads this, nodes
    {
      && Consumed(slots, consumed) && Shape(slots, consumed, nodes)
      && root == if nodes == [] then null else nodes[0]
    }

    constructor ()
      ensures Valid() && nodes == []
    {
      root := null;
      slots, consumed, nodes := [], 0, [];
    }

    /** One slot of the input: a value becomes the left or right child of `cur` and is queued. */
    static method Attach(vals: Slots, cur: Node, ghost h: nat, i: nat, q0: seq<Node>, ghost all0: seq<Node>)
      returns (q: seq<Node>, ghost all: seq<Node>)
      requires i < |vals| && Shape(vals, i, all0) && h < |all0| && cur == all0[h] && (i == 2 * h + 1 || i == 2 * h + 2)
      requires q0 == all0[h + 1..]
      modifies cur
      ensures Shape(vals, i + 1, all) && all0 <= all && q == all[h + 1..]
      ensures forall n :: |all0| <= n < |all| ==> fresh(all[n])
    {
      hide NonNull, Rank, Kid, Shape;
      q, all := q0, all0;
      ShapeSize(vals, i, all0);
      ShapeLinks(vals, i, all0);
      match vals[i] {
        case None => ShapeSkip(vals, i, all0);
        case Some(v) =>
          var child := new Node(v);
          if i % 2 == 1 {
            cur.left := child;
          } else {
            cur.right := child;
          }
          q := q + [child];
          all := all + [child];
          ShapeGrow(vals, i, all0, child);
      }
    }

    /** The children of the node at the front of the queue: slots `i` and `i + 1`, if they exist. */
    static method AttachPair(vals: Slots, ghost h: nat, i: nat, q0: seq<Node>, ghost all0: seq<Node>)
      returns (q: seq<Node>, ghost all: seq<Node>)
      requires i < |vals| && i == 2 * h + 1 && Shape(vals, i, all0) && h < |all0| && q0 == all0[h..]
      modifies q0[0]
      ensures Shape(vals, Min(i + 2, |vals|), all) && all0 <= all && q == all[h + 1..]
      ensures forall n :: |all0| <= n < |all| ==> fresh(all[n])
    {
      hide Shape;
      var cur := q0[0];
      q, all := Attach(vals, cur, h, i, q0[1..], all0);
      if i + 1 < |vals| {
        q, all := Attach(vals, cur, h, i + 1, q, all);
      }
    }

    /** The tree of a level-order input with nulls. Exactly the consumed prefix is used. */
    method BuildLevelOrder(vals: Slots) returns (ghost at: seq<nat>)
      modifies this
      ensures Valid() && slots == vals && Values(nodes) == NonNull(vals[..consumed])
      ensures forall i :: 0 <= i < |nodes| ==> fresh(nodes[i])
      ensures root == if nodes == [] then null else nodes[0]
      ensures Carries(vals, consumed, nodes, at) && Parents(nodes, at)
      ensures consumed == |vals| || consumed == 2 * |nodes| + 1
      ensures forall h: nat :: 2 * h + 1 < consumed ==> h < |nodes| && at[h] < 2 * h + 1
    {
      BuildNodes(vals);
      at := Positions(slots, consumed);
      ShapeCarries(slots, consumed, nodes);
      ShapeParents(slots, consumed, nodes);
      ConsumedRead(slots, consumed, at);
    }

    method BuildNodes(vals: Slots)
      modifies this
      ensures Valid() && slots == vals && Values(nodes) == NonNull(vals[..consumed])
      ensures forall i :: 0 <= i < |nodes| ==> fresh(nodes[i])
    {
      root := null;
      if vals == [] || vals[0].None? {
        slots, consumed, nodes := vals, if vals == [] then 0 else 1, [];
        EmptyShape(slots, consumed);
        return;
      }
      var first := new Node(vals[0].value);
      var q: seq<Node> := [first];
      ghost var all: seq<Node> := [first];
      EmptyShape(vals, 0);
      ShapeGrow(vals, 0, [], first);
      assert [] + all == all;
      var i;
      i, all := ReadPairs(vals, q, all);
      root := first;
      slots, consumed, nodes := vals, i, all;
    }

    /** The loop of `build_level_order`; returns how many slots were read. */
    static method ReadPairs(vals: Slots, q0: seq<Node>, ghost all0: seq<Node>) returns (read: nat, ghost all: seq<Node>)
      requires vals != [] && Shape(vals, 1, all0) && all0 != [] && q0 == all0
      modifies q0
      ensures Consumed(vals, read) && Shape(vals, read, all)
      ensures all0 <= all && forall k :: |all0| <= k < |all| ==> fresh(all[k])
    {
      var q := q0;
      all := all0;
      var i := 1;
      ghost var h := 0;
      while q != [] && i < |vals|
        invariant i == 2 * h + 1 && h <= |all| && q == all[h..] && 2 * h - 1 < |vals|
        invariant Shape(vals, Min(i, |vals|), all)
        invariant forall j :: 0 <= j < h ==> Rank(vals, 2 * j + 1) > j
        invariant all0 <= all && forall k :: |all0| <= k < |all| ==> fresh(all[k])
        decreases |vals| - i
      {
        ShapeSize(vals, i, all);
        hide Rank, Shape;
        assert q[0] == all[h];
        q, all := AttachPair(vals, h, i, q, all);
        i := i + 2;
        h := h + 1;
      }
      read := Min(i, |vals|);
      ShapeSize(vals, read, all);
    }

    /** The second loop: node `i` gets children `2i+1` and `2i+2`. */
    static method LinkComplete(all: seq<Node>)
      requires forall k :: 0 <= k < |all| ==> all[k].left == null && all[k].right == null
      requires forall j, k :: 0 <= j < k < |all| ==> all[j] != all[k]
      modifies all
      ensures forall k :: 0 <= k < |all| ==> Linked(all, k)
    {
      for i := 0 to |all|
        invariant forall k :: 0 <= k < i ==> Linked(all, k)
        invariant forall k :: i <= k < |all| ==> all[k].left == null && all[k].right == null
      {
        var l, r := i * 2 + 1, i * 2 + 2;
        if l < |all| {
          all[i].left := all[l];
        }
        if r < |all| {
          all[i].right := all[r];
        }
      }
    }

    /** The tree whose node `i` has children `2i+1` and `2i+2`. */
    method BuildComplete(arr: seq<int>)
      modifies this
      ensures Valid() && slots == Full(arr) && consumed == |arr| && |nodes| == |arr|
      ensures root == if arr == [] then null else nodes[0]
      ensures forall i :: 0 <= i < |arr| ==> nodes[i].val == arr[i] && Linked(nodes, i)
    {
      root := null;
      FullConsumed(arr);
      if arr == [] {
        slots, consumed, nodes := [], 0, [];
        EmptyShape(slots, 0);
        return;
      }
      var all := MakeNodes(arr);
      LinkComplete(all);
      FullShape(arr, all);
      root, nodes := all[0], all;
      slots, consumed := Full(arr), |arr|;
    }

    /** The first loop: a node per value. */
    static method MakeNodes(arr: seq<int>) returns (all: seq<Node>)
      ensures |all| == |arr|
      ensures forall k :: 0 <= k < |arr| ==> fresh(all[k]) && all[k].val == arr[k] && all[k].left == null && all[k].right == null
      ensures forall j, k :: 0 <= j < k < |arr| ==> all[j] != all[k]
    {
      all := [];
      for i := 0 to |arr|
        invariant |all| == i
        invariant forall k :: 0 <= k < i ==> fresh(all[k]) && all[k].val == arr[k] && all[k].left == null && all[k].right == null
        invariant forall j, k :: 0 <= j < k < i ==> all[j] != all[k]
      {
        var node := new Node(arr[i]);
        all := all + [node];
      }
    }

    /** The children of a visited node join the queue. */
    static method Enqueue(q0: seq<Node>, cur: Node) returns (q: seq<Node>)
      ensures q == q0 + ((if cur.left != null then [cur.left] else []) + (if cur.right != null then [cur.right] else []))
    {
      q := q0;
      if cur.left != null {
        q := q + [cur.left];
      }
      if cur.right != null {
        q := q + [cur.right];
      }
    }

    /** The traversal returns the values in the order of creation. */
    method LevelOrder() returns (out: seq<int>)
      requires Valid()
      ensures out == Values(nodes)
    {
      out := [];
      if root == null {
        return;
      }
      var q: seq<Node> := [root];
      ghost var k := 0;
      FirstKnown(slots, consumed, nodes);
      while q != []
        invariant k <= Known(slots, consumed, k) <= |nodes| && q == nodes[k..Known(slots, consumed, k)]
        invariant out == Values(nodes[..k])
        decreases |nodes| - k
      {
        hide Known, Shape, Consumed, Values;
        QueueStep(slots, consumed, nodes, k);
        var cur := q[0];
        q := Enqueue(q[1..], cur);
        out := out + [cur.val];
        k := k + 1;
      }
      AllKnown(slots, consumed, nodes, k);
      assert nodes[..k] == nodes;
    }

    /** The height, and a longest path down from `node`. */
    method HeightDfs(node: Node?, ghost i: nat) returns (height: nat, ghost path: seq<Node>)
      requires Valid() && node == Kid(slots, consumed, nodes, i)
      ensures height == HeightSlot(slots, consumed, i)
      ensures |path| == height && Downward(path) && (path == [] <==> node == null) && (path != [] ==> path[0] == node)
      decreases if i < consumed then Rank(slots, consumed) - Rank(slots, i) else 0
    {
      hide NonNull, Kid, Shape, Downward;
      path := [];
      if node == null {
        KidNull(slots, consumed, nodes, i);
        OnePath();
        return 0, [];
      }
      KidIs(slots, consumed, nodes, i);
      ghost var h := Rank(slots, i);
      ghost var lp, rp;
      var l, r;
      l, lp := HeightDfs(node.left, 2 * h + 1);
      r, rp := HeightDfs(node.right, 2 * h + 2);
      height := 1 + Max(l, r);
      path := [node] + if l < r then rp else lp;
      PathFrom(node, if l < r then rp else lp);
    }

    /** No path down from the node of slot `i` is longer than its height. */
    lemma {:induction false} NoLongerPath(i: nat, path: seq<Node>)
      requires Valid() && path != [] && path[0] == Kid(slots, consumed, nodes, i) && Downward(path)
      ensures |path| <= HeightSlot(slots, consumed, i)
      decreases |path|
    {
      hide NonNull, Kid, Shape, Downward, Rank;
      KidIs(slots, consumed, nodes, i);
      PathOn(path[0], path);
      if |path| > 1 {
        var h := Rank(slots, i);
        NoLongerPath(if path[1] == path[0].left then 2 * h + 1 else 2 * h + 2, path[1..]);
      }
    }

    /** The greatest number of nodes on a path down from the root. */
    method Height() returns (height: nat, ghost path: seq<Node>)
      requires Valid()
      ensures |path| == height && Downward(path) && (path == [] <==> root == null) && (path != [] ==> path[0] == root)
      ensures forall p: seq<Node> :: p != [] && p[0] == root && Downward(p) ==> |p| <= height
      ensures forall arr :: slots == Full(arr) && consumed == |arr| ==>
                && height == BitLength(|nodes|)
                && |nodes| < Pow2(height) && (nodes != [] ==> 2 * |nodes| >= Pow2(height))
    {
      RootIsFirstKid(slots, consumed, nodes);
      height, path := HeightDfs(root, 0);
      forall p: seq<Node> | p != [] && p[0] == root && Downward(p) ensures |p| <= height {
        NoLongerPath(0, p);
      }
      forall arr | slots == Full(arr) && consumed == |arr|
        ensures height == BitLength(|nodes|)
        ensures |nodes| < Pow2(height) && (nodes != [] ==> 2 * |nodes| >= Pow2(height))
      {
        FullHeight(arr, 0);
        CompleteHeight(|arr|);
        ShapeSize(slots, consumed, nodes);
        FullRank(arr, |arr|);
      }
    }
  }

  /** Each node is a child of the one before it. */
  ghost predicate Downward(path: seq<Node>)
    reads path
  {
    forall i :: 0 <= i && i + 1 < |path| ==> path[i + 1] == path[i].left || path[i + 1] == path[i].right
  }

  lemma OnePath()
    ensures Downward([])
  {
  }

  lemma PathFrom(node: Node, rest: seq<Node>)
    requires Downward(rest) && (rest != [] ==> rest[0] == node.left || rest[0] == node.right)
    ensures Downward([node] + rest)
  {
    var path := [node] + rest;
    forall i | 0 <= i && i + 1 < |path| ensures path[i + 1] == path[i].left || path[i + 1] == path[i].right {
      if i > 0 {
        assert path[i] == rest[i - 1] && path[i + 1] == rest[i - 1 + 1];
      }
    }
  }

  lemma PathOn(node: Node, path: seq<Node>)
    requires path != [] && path[0] == node && Downward(path)
    ensures Downward(path[1..]) && (|path| > 1 ==> path[1..][0] == node.left || path[1..][0] == node.right)
  {
    var rest := path[1..];
    forall i | 0 <= i && i + 1 < |rest| ensures rest[i + 1] == rest[i].left || rest[i + 1] == rest[i].right {
      assert rest[i] == path[i + 1] && rest[i + 1] == path[i + 1 + 1];
    }
    if |path| > 1 {
      assert path[0 + 1] == path[0].left || path[0 + 1] == path[0].right;
    }
  }

  /** Children of node `k` in a complete tree. */
  ghost predicate Linked(all: seq<Node>, k: nat)
    requires k < |all|
    reads all[k]
  {
    && all[k].left == (if 2 * k + 1 < |all| then all[2 * k + 1] else null)
    && all[k].right == (if 2 * k + 2 < |all| then all[2 * k + 2] else null)
  }

  lemma EmptyShape(s: Slots, c: nat)
    requires c <= |s| && c <= 1 && (c == 1 ==> s[0].None?)
    ensures Shape(s, c, [])
    ensures c == |s| || c == 1 ==> Consumed(s, c)
  {
    if c == 1 {
      NonNullStep(s, 0);
    }
  }

  lemma FullShape(arr: seq<int>, all: seq<Node>)
    requires |all| == |arr|
    requires forall k :: 0 <= k < |all| ==> all[k].val == arr[k]
    requires forall j, k :: 0 <= j < k < |all| ==> all[j] != all[k]
    requires forall k :: 0 <= k < |all| ==> Linked(all, k)
    ensures Shape(Full(arr), |arr|, all)
  {
    var s, c := Full(arr), |arr|;
    FullRank(arr, c);
    assert s[..c] == s && arr[..c] == arr;
    forall k | 0 <= k < |all| ensures Links(s, c, all, k) {
      assert Linked(all, k);
      FullKid(arr, all, 2 * k + 1);
      FullKid(arr, all, 2 * k + 2);
    }
  }

  lemma FullKid(arr: seq<int>, all: seq<Node>, j: nat)
    requires |all| == |arr|
    ensures Kid(Full(arr), |arr|, all, j) == if j < |all| then all[j] else null
  {
    if j < |arr| {
      FullRank(arr, j);
    }
  }

  lemma FirstKnown(s: Slots, c: nat, nodes: seq<Node>)
    requires Consumed(s, c) && Shape(s, c, nodes) && nodes != []
    ensures Known(s, c, 0) == 1
  {
    ShapeSize(s, c, nodes);
    KnownAhead(s, c, 0);
    if c > 1 {
      RankStep(s, 0);
    } else {
      RankStep(s, 0);
    }
  }

  /** One visit: the front of the queue goes out, its children come in. */
  lemma QueueStep(s: Slots, c: nat, nodes: seq<Node>, k: nat)
    requires Shape(s, c, nodes) && k < Known(s, c, k) <= |nodes|
    ensures Known(s, c, k) <= Known(s, c, k + 1) <= |nodes|
    ensures nodes[k..Known(s, c, k)][0] == nodes[k]
    ensures nodes[k + 1..Known(s, c, k + 1)] == nodes[k..Known(s, c, k)][1..] +
            ((if nodes[k].left != null then [nodes[k].left] else []) + (if nodes[k].right != null then [nodes[k].right] else []))
    ensures Values(nodes[..k + 1]) == Values(nodes[..k]) + [nodes[k].val]
  {
    KnownStep(s, c, nodes, k);
    hide Known, Shape;
    var m, m' := Known(s, c, k), Known(s, c, k + 1);
    assert nodes[k + 1..m'] == nodes[k + 1..m] + nodes[m..m'];
  }

  /** A queue that runs empty has seen every node. */
  lemma AllKnown(s: Slots, c: nat, nodes: seq<Node>, k: nat)
    requires Consumed(s, c) && Shape(s, c, nodes) && k <= |nodes| && Known(s, c, k) == k
    ensures k == |nodes|
  {
    ShapeSize(s, c, nodes);
    if k < |nodes| {
      KnownAhead(s, c, k);
    }
  }

  lemma KidNull(s: Slots, c: nat, nodes: seq<Node>, i: nat)
    requires Shape(s, c, nodes) && Kid(s, c, nodes, i) == null
    ensures i >= c || s[i].None?
  {
    ShapeSize(s, c, nodes);
    if i < c {
      RankMonotone(s, i, c);
    }
  }

  /** The node of slot `i` and the slots of its children. */
  lemma KidIs(s: Slots, c: nat, nodes: seq<Node>, i: nat)
    requires Consumed(s, c) && Shape(s, c, nodes) && Kid(s, c, nodes, i) != null
    ensures i < c && s[i].Some?
    ensures var h, node := Rank(s, i), Kid(s, c, nodes, i);
            && Rank(s, i) < Rank(s, c)
            && node.left == Kid(s, c, nodes, 2 * h + 1) && node.right == Kid(s, c, nodes, 2 * h + 2)
            && (2 * h + 1 < c ==> Rank(s, i) < Rank(s, 2 * h + 1) <= Rank(s, c))
            && (2 * h + 2 < c ==> Rank(s, i) < Rank(s, 2 * h + 2) <= Rank(s, c))
  {
    hide NonNull, Rank;
    var h := Rank(s, i);
    assert Links(s, c, nodes, h);
    RankMonotone(s, i, c);
    ChildRank(s, c, i, 2 * h + 1);
    ChildRank(s, c, i, 2 * h + 2);
  }

  lemma RootIsFirstKid(s: Slots, c: nat, nodes: seq<Node>)
    requires Consumed(s, c) && Shape(s, c, nodes)
    ensures Kid(s, c, nodes, 0) == if nodes == [] then null else nodes[0]
  {
    ShapeSize(s, c, nodes);
    if nodes != [] {
      FirstKnown(s, c, nodes);
      RankStep(s, 0);
    }
  }
}
