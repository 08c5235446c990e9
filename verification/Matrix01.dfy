/** 01 Matrix: multi-source breadth-first search, overwriting the grid with distances. */
module Matrix01 {

  type Cell = (int, int)

  /** A snapshot of the grid. */
  type Labels = map<Cell, int>

  function Abs(x: int): nat {
    if x < 0 then -x else x
  }

  function Distance(a: Cell, b: Cell): nat {
    Abs(a.0 - b.0) + Abs(a.1 - b.1)
  }

  /** The rows of `{{1, 0}, {-1, 0}, {0, 1}, {0, -1}}`. */
  function Neighbour(c: Cell, d: nat): Cell
    requires d < 4
  {
    if d == 0 then (c.0 + 1, c.1)
    else if d == 1 then (c.0 - 1, c.1)
    else if d == 2 then (c.0, c.1 + 1)
    else (c.0, c.1 - 1)
  }

  ghost predicate Adjacent(c: Cell, c': Cell) {
    exists d: nat :: d < 4 && Neighbour(c, d) == c'
  }

  /** Neighbours are the cells one row up or down or one column left or right. */
  lemma NeighboursAre(c: Cell, c': Cell)
    ensures Adjacent(c, c') <==>
              || (c'.1 == c.1 && (c'.0 == c.0 + 1 || c'.0 == c.0 - 1))
              || (c'.0 == c.0 && (c'.1 == c.1 + 1 || c'.1 == c.1 - 1))
  {
    assert Neighbour(c, 0) == (c.0 + 1, c.1) && Neighbour(c, 1) == (c.0 - 1, c.1);
    assert Neighbour(c, 2) == (c.0, c.1 + 1) && Neighbour(c, 3) == (c.0, c.1 - 1);
  }

  /** A walk from cell to neighbouring cell. */
  ghost predicate Walk(cells: seq<Cell>) {
    forall i :: 0 < i < |cells| ==> Adjacent(cells[i - 1], cells[i])
  }

  /** The distance is the number of moves of a shortest walk: no walk is shorter, and one is as short. */
  lemma {:induction false} NoShorterWalk(cells: seq<Cell>)
    requires cells != [] && Walk(cells)
    ensures Distance(cells[0], cells[|cells| - 1]) <= |cells| - 1
    decreases |cells|
  {
    if |cells| > 1 {
      var rest := cells[1..];
      assert Adjacent(cells[1 - 1], cells[1]);
      forall i | 0 < i < |rest| ensures Adjacent(rest[i - 1], rest[i]) {
        assert Adjacent(cells[i + 1 - 1], cells[i + 1]);
      }
      NoShorterWalk(rest);
    }
  }

  lemma {:induction false} ShortestWalk(a: Cell, b: Cell) returns (cells: seq<Cell>)
    ensures cells != [] && cells[0] == a && cells[|cells| - 1] == b
    ensures Walk(cells) && |cells| - 1 == Distance(a, b)
    decreases Distance(a, b)
  {
    if a == b {
      cells := [a];
    } else {
      var back, d := StepBack(a, b);
      var before := ShortestWalk(a, back);
      assert Adjacent(back, b);
      cells := before + [b];
    }
  }

  ghost predicate Grid(lab: Labels, m: nat, n: nat) {
    forall c: Cell :: c in lab <==> 0 <= c.0 < m && 0 <= c.1 < n
  }

  ghost function Zeros(lab: Labels): set<Cell> {
    set c | c in lab && lab[c] == 0
  }

  /** `k` is the least distance from `c` to a cell of `zs`. */
  ghost predicate Nearest(zs: set<Cell>, c: Cell, k: int) {
    (exists z :: z in zs && Distance(z, c) == k) && forall z :: z in zs ==> k <= Distance(z, c)
  }

  // ---------------------------------------------------------------- invariants

  /** The first `n` neighbours of `c` that exist are labelled, by at most one more than `c`. */
  ghost predicate Closed(lab: Labels, c: Cell, n: nat)
    requires c in lab && n <= 4
  {
    forall d :: 0 <= d < n && Neighbour(c, d) in lab ==> 0 <= lab[Neighbour(c, d)] <= lab[c] + 1
  }

  ghost predicate Witnessed(zs: set<Cell>, c: Cell, k: int) {
    exists z :: z in zs && Distance(z, c) <= k
  }

  /** Every label is witnessed by a zero at most that far away; zeros are labelled 0. */
  ghost predicate Sound(lab: Labels, zs: set<Cell>) {
    && (forall z :: z in zs ==> z in lab && lab[z] == 0)
    && (forall c :: c in lab && lab[c] != -1 ==> Witnessed(zs, c, lab[c]))
  }

  /** The queue is in order of labels, from `low` on, and no label exceeds `low + 1`. */
  ghost predicate Ordered(lab: Labels, q: seq<Cell>, low: int) {
    && (forall i :: 0 <= i < |q| ==> q[i] in lab && low <= lab[q[i]])
    && (forall i, j :: 0 <= i < j < |q| ==> lab[q[i]] <= lab[q[j]])
    && (forall c :: c in lab ==> lab[c] <= low + 1)
  }

  ghost predicate Unlabelled(lab: Labels, todo: set<Cell>) {
    forall c :: c in todo <==> c in lab && lab[c] == -1
  }

  /** Labelled cells other than `busy` are waiting, or done with all their neighbours. */
  ghost predicate Settled(lab: Labels, q: seq<Cell>, busy: set<Cell>) {
    forall c :: c in lab && lab[c] != -1 && c !in q && c !in busy ==> Closed(lab, c, 4)
  }

  ghost predicate BfsInv(lab: Labels, zs: set<Cell>, q: seq<Cell>, todo: set<Cell>) {
    && Sound(lab, zs) && Unlabelled(lab, todo) && Settled(lab, q, {})
    && (forall i :: 0 <= i < |q| ==> q[i] in lab)
    && (q != [] ==> lab[q[0]] >= 0 && Ordered(lab, q, lab[q[0]]))
  }

  /** While the neighbours of `cell` are being relaxed, up to direction `d`. */
  ghost predicate RelaxInv(lab: Labels, zs: set<Cell>, q: seq<Cell>, todo: set<Cell>, cell: Cell, d: nat) {
    && d <= 4 && cell in lab && lab[cell] >= 0
    && Sound(lab, zs) && Unlabelled(lab, todo) && Settled(lab, q, {cell})
    && Ordered(lab, q, lab[cell]) && Closed(lab, cell, d)
  }

  lemma Dequeue(lab: Labels, zs: set<Cell>, q: seq<Cell>, todo: set<Cell>)
    requires BfsInv(lab, zs, q, todo) && q != []
    ensures RelaxInv(lab, zs, q[1..], todo, q[0], 0)
  {
    hide Sound, Unlabelled, Closed;
    ClosedNone(lab, q[0]);
    OrderedTail(lab, q, lab[q[0]]);
    hide Ordered;
    forall c | c in lab && c !in q[1..] && c != q[0] ensures c !in q {
      assert q == [q[0]] + q[1..];
    }
  }

  lemma OrderedTail(lab: Labels, q: seq<Cell>, low: int)
    requires Ordered(lab, q, low) && q != []
    ensures Ordered(lab, q[1..], low)
  {
  }

  lemma ClosedNone(lab: Labels, c: Cell)
    requires c in lab
    ensures Closed(lab, c, 0)
  {
  }

  lemma WitnessStep(zs: set<Cell>, cell: Cell, next: Cell, k: int)
    requires Distance(cell, next) == 1
    ensures Witnessed(zs, cell, k) ==> Witnessed(zs, next, k + 1)
  {
    if Witnessed(zs, cell, k) {
      var z :| z in zs && Distance(z, cell) <= k;
      assert Distance(z, next) <= k + 1;
    }
  }

  lemma SoundRelax(lab: Labels, zs: set<Cell>, cell: Cell, next: Cell)
    requires Sound(lab, zs) && cell in lab && lab[cell] >= 0 && next in lab && lab[next] == -1
    requires Distance(cell, next) == 1
    ensures Sound(lab[next := lab[cell] + 1], zs)
  {
    WitnessStep(zs, cell, next, lab[cell]);
    hide Distance, Witnessed;
    var lab' := lab[next := lab[cell] + 1];
    forall c | c in lab' && lab'[c] != -1 ensures Witnessed(zs, c, lab'[c]) {
      if c != next {
        assert Witnessed(zs, c, lab[c]);
      }
    }
  }

  /** Giving an unlabelled cell a label opens no cell that was closed. */
  lemma ClosedRelax(lab: Labels, c: Cell, n: nat, next: Cell, k: int)
    requires c in lab && n <= 4 && Closed(lab, c, n) && next in lab && lab[next] == -1 && lab[c] != -1
    ensures Closed(lab[next := k], c, n)
  {
  }

  lemma SettledRelax(lab: Labels, q: seq<Cell>, cell: Cell, next: Cell, k: int)
    requires Settled(lab, q, {cell}) && next in lab && lab[next] == -1 && k >= 0
    ensures Settled(lab[next := k], q + [next], {cell})
  {
    var lab', q' := lab[next := k], q + [next];
    assert q'[|q|] == next;
    assert forall c :: c in q ==> c in q';
    forall c | c in lab' && lab'[c] != -1 && c !in q' && c !in {cell} ensures Closed(lab', c, 4) {
      ClosedRelax(lab, c, 4, next, k);
    }
  }

  lemma NeighbourDistance(c: Cell, d: nat)
    requires d < 4
    ensures Distance(c, Neighbour(c, d)) == 1
  {
  }

  lemma TodoRelax(lab: Labels, todo: set<Cell>, next: Cell, k: int)
    requires Unlabelled(lab, todo) && next in lab && lab[next] == -1 && k >= 0
    ensures Unlabelled(lab[next := k], todo - {next}) && |todo - {next}| < |todo|
  {
    assert todo == (todo - {next}) + {next};
  }

  lemma ClosedNext(lab: Labels, c: Cell, d: nat, k: int)
    requires d < 4 && c in lab && lab[c] >= 0 && Closed(lab, c, d) && k == lab[c] + 1
    requires Neighbour(c, d) in lab && lab[Neighbour(c, d)] == -1
    ensures Closed(lab[Neighbour(c, d) := k], c, d + 1)
  {
    hide Neighbour;
    ClosedRelax(lab, c, d, Neighbour(c, d), k);
  }

  /** The new label is the highest allowed, so the end of the queue is its place. */
  lemma OrderedRelax(lab: Labels, q: seq<Cell>, low: int, next: Cell)
    requires Ordered(lab, q, low) && low >= 0 && next in lab && lab[next] == -1
    ensures Ordered(lab[next := low + 1], q + [next], low)
  {
    assert forall i :: 0 <= i < |q| ==> q[i] != next;
  }

  /** A neighbour without a label gets the next one and joins the queue. */
  lemma Relax(lab: Labels, zs: set<Cell>, q: seq<Cell>, todo: set<Cell>, cell: Cell, d: nat, next: Cell)
    requires RelaxInv(lab, zs, q, todo, cell, d) && d < 4
    requires next == Neighbour(cell, d) && next in lab && lab[next] == -1
    ensures cell in lab && |todo - {next}| < |todo|
    ensures RelaxInv(lab[next := lab[cell] + 1], zs, q + [next], todo - {next}, cell, d + 1)
  {
    hide Sound, Settled, Ordered, Distance, Neighbour, Unlabelled, Closed;
    NeighbourDistance(cell, d);
    TodoRelax(lab, todo, next, lab[cell] + 1);
    ClosedNext(lab, cell, d, lab[cell] + 1);
    SoundRelax(lab, zs, cell, next);
    SettledRelax(lab, q, cell, next, lab[cell] + 1);
    OrderedRelax(lab, q, lab[cell], next);
  }

  lemma Skip(lab: Labels, zs: set<Cell>, q: seq<Cell>, todo: set<Cell>, cell: Cell, d: nat)
    requires RelaxInv(lab, zs, q, todo, cell, d) && d < 4
    requires Neighbour(cell, d) in lab ==> lab[Neighbour(cell, d)] != -1
    ensures RelaxInv(lab, zs, q, todo, cell, d + 1)
  {
    var next := Neighbour(cell, d);
    if next in lab {
      assert Witnessed(zs, next, lab[next]);
    }
  }

  lemma Finish(lab: Labels, zs: set<Cell>, q: seq<Cell>, todo: set<Cell>, cell: Cell)
    requires RelaxInv(lab, zs, q, todo, cell, 4)
    ensures BfsInv(lab, zs, q, todo)
  {
  }

  // ---------------------------------------------------------------- why the labels are distances

  /** With every labelled cell done, labels grow by at most one per step, so along a shortest path
      from a zero they are at most the distance. */
  lemma {:induction false} LabelsBounded(lab: Labels, m: nat, n: nat, zs: set<Cell>, z: Cell, c: Cell)
    requires Grid(lab, m, n) && Sound(lab, zs) && Settled(lab, [], {}) && z in zs && c in lab
    ensures 0 <= lab[c] <= Distance(z, c)
    decreases Distance(z, c)
  {
    if z != c {
      var back, d := StepBack(z, c);
      assert z in lab && back in lab;
      LabelsBounded(lab, m, n, zs, z, back);
      assert Closed(lab, back, 4);
    }
  }

  /** The cell before `c` on a shortest path from `z`. */
  lemma StepBack(z: Cell, c: Cell) returns (back: Cell, d: nat)
    requires z != c
    ensures d < 4 && Neighbour(back, d) == c && Distance(z, back) == Distance(z, c) - 1
    ensures z.0 <= back.0 <= c.0 || c.0 <= back.0 <= z.0
    ensures z.1 <= back.1 <= c.1 || c.1 <= back.1 <= z.1
  {
    if c.0 < z.0 {
      back, d := (c.0 + 1, c.1), 1;
    } else if c.0 > z.0 {
      back, d := (c.0 - 1, c.1), 0;
    } else if c.1 < z.1 {
      back, d := (c.0, c.1 + 1), 3;
    } else {
      back, d := (c.0, c.1 - 1), 2;
    }
  }

  lemma LabelsAreDistances(lab: Labels, m: nat, n: nat, zs: set<Cell>)
    requires Grid(lab, m, n) && Sound(lab, zs) && Settled(lab, [], {})
    ensures forall c :: c in lab ==> if zs == {} then lab[c] == -1 else Nearest(zs, c, lab[c])
  {
    forall c | c in lab ensures if zs == {} then lab[c] == -1 else Nearest(zs, c, lab[c]) {
      if zs == {} {
        assert !Witnessed(zs, c, lab[c]);
      } else {
        forall z | z in zs ensures 0 <= lab[c] <= Distance(z, c) {
          LabelsBounded(lab, m, n, zs, z, c);
        }
        var any :| any in zs;
        assert Witnessed(zs, c, lab[c]);
        var z :| z in zs && Distance(z, c) <= lab[c];
      }
    }
  }

  // ---------------------------------------------------------------- the algorithm

  ghost function Snapshot(mat: array2<int>): (lab: Labels)
    reads mat
    ensures Grid(lab, mat.Length0, mat.Length1)
    ensures forall c :: c in lab ==> lab[c] == mat[c.0, c.1]
  {
    map i, j | 0 <= i < mat.Length0 && 0 <= j < mat.Length1 :: (i, j) := mat[i, j]
  }

  method Write(mat: array2<int>, c: Cell, v: int)
    requires 0 <= c.0 < mat.Length0 && 0 <= c.1 < mat.Length1
    modifies mat
    ensures Snapshot(mat) == old(Snapshot(mat))[c := v]
  {
    mat[c.0, c.1] := v;
  }

  predicate Scanned(c: Cell, i: int, j: int) {
    c.0 < i || (c.0 == i && c.1 < j)
  }

  /** The first pass: cells before `(i, j)` are queued zeros or marked -1; the others are as before. */
  ghost predicate ScanInv(was: Labels, lab: Labels, q: seq<Cell>, todo: set<Cell>, i: int, j: int) {
    && lab.Keys == was.Keys
    && (forall c :: c in q <==> c in lab && Scanned(c, i, j) && was[c] == 0)
    && (forall c :: c in todo <==> c in lab && Scanned(c, i, j) && was[c] != 0)
    && (forall c :: c in lab ==> lab[c] == if c in todo then -1 else was[c])
  }

  lemma ScanStep(was: Labels, lab: Labels, q: seq<Cell>, todo: set<Cell>, m: nat, n: nat, i: nat, j: nat)
    requires Grid(was, m, n) && ScanInv(was, lab, q, todo, i, j) && i < m && j < n
    ensures var c := (i, j);
            && c in lab
            && (lab[c] == 0 ==> ScanInv(was, lab, q + [c], todo, i, j + 1))
            && (lab[c] != 0 ==> ScanInv(was, lab[c := -1], q, todo + {c}, i, j + 1))
  {
    var c := (i, j);
    assert forall x: Cell :: Scanned(x, i, j + 1) <==> Scanned(x, i, j) || x == c;
    assert forall x :: x in q + [c] <==> x in q || x == c;
  }

  lemma ScanRow(was: Labels, lab: Labels, q: seq<Cell>, todo: set<Cell>, m: nat, n: nat, i: nat)
    requires Grid(was, m, n) && ScanInv(was, lab, q, todo, i, n)
    ensures ScanInv(was, lab, q, todo, i + 1, 0)
  {
    assert forall c :: c in lab ==> (Scanned(c, i, n) <==> Scanned(c, i + 1, 0));
  }

  lemma ScanDone(was: Labels, lab: Labels, q: seq<Cell>, todo: set<Cell>, m: nat, n: nat)
    requires Grid(was, m, n) && ScanInv(was, lab, q, todo, m, 0)
    ensures BfsInv(lab, Zeros(was), q, todo)
  {
    var zs := Zeros(was);
    forall c | c in lab ensures c in q <==> c in zs {
    }
    forall c | c in lab && lab[c] != -1 ensures Witnessed(zs, c, lab[c]) {
      assert Distance(c, c) == 0;
    }
    forall i | 0 <= i < |q| ensures q[i] in lab && lab[q[i]] == 0 {
      assert q[i] in q;
    }
  }

  /** A zero is queued, anything else marked. */
  method SeedCell(mat: array2<int>, queued: seq<Cell>, ghost marked: set<Cell>, i: nat, j: nat, ghost was: Labels)
    returns (q: seq<Cell>, ghost todo: set<Cell>)
    requires Grid(was, mat.Length0, mat.Length1) && i < mat.Length0 && j < mat.Length1
    requires ScanInv(was, Snapshot(mat), queued, marked, i, j)
    modifies mat
    ensures ScanInv(was, Snapshot(mat), q, todo, i, j + 1)
  {
    hide ScanInv;
    ScanStep(was, Snapshot(mat), queued, marked, mat.Length0, mat.Length1, i, j);
    q, todo := queued, marked;
    if mat[i, j] == 0 {
      q := q + [(i, j)];
    } else {
      Write(mat, (i, j), -1);
      todo := todo + {(i, j)};
    }
  }

  /** The first pass: queue the zeros, mark everything else. */
  method Seed(mat: array2<int>) returns (q: seq<Cell>, ghost todo: set<Cell>)
    modifies mat
    ensures BfsInv(Snapshot(mat), Zeros(old(Snapshot(mat))), q, todo)
  {
    var m, n := mat.Length0, mat.Length1;
    ghost var was := Snapshot(mat);
    q, todo := [], {};
    for i := 0 to m
      invariant ScanInv(was, Snapshot(mat), q, todo, i, 0)
    {
      hide ScanInv;
      for j := 0 to n
        invariant ScanInv(was, Snapshot(mat), q, todo, i, j)
      {
        q, todo := SeedCell(mat, q, todo, i, j, was);
      }
      ScanRow(was, Snapshot(mat), q, todo, m, n, i);
    }
    ScanDone(was, Snapshot(mat), q, todo, m, n);
  }

  /** The body of the inner loop: a neighbour without a label is labelled and queued. */
  method Visit(mat: array2<int>, waiting: seq<Cell>, cell: Cell, d: nat, ghost zs: set<Cell>, ghost before: set<Cell>)
    returns (q: seq<Cell>, ghost todo: set<Cell>)
    requires d < 4 && cell in Snapshot(mat) && RelaxInv(Snapshot(mat), zs, waiting, before, cell, d)
    modifies mat
    ensures cell in Snapshot(mat) && RelaxInv(Snapshot(mat), zs, q, todo, cell, d + 1)
    ensures |todo| < |before| || (todo == before && q == waiting)
  {
    hide RelaxInv, Neighbour;
    q, todo := waiting, before;
    var next := Neighbour(cell, d);
    ghost var lab := Snapshot(mat);
    if 0 <= next.0 < mat.Length0 && 0 <= next.1 < mat.Length1 && mat[next.0, next.1] == -1 {
      var level := mat[cell.0, cell.1] + 1;
      Relax(lab, zs, q, todo, cell, d, next);
      Write(mat, next, level);
      assert Snapshot(mat) == lab[next := lab[cell] + 1];
      q := q + [next];
      todo := todo - {next};
    } else {
      Skip(lab, zs, q, todo, cell, d);
    }
  }

  method Expand(mat: array2<int>, waiting: seq<Cell>, cell: Cell, ghost zs: set<Cell>, ghost before: set<Cell>)
    returns (q: seq<Cell>, ghost todo: set<Cell>)
    requires RelaxInv(Snapshot(mat), zs, waiting, before, cell, 0)
    modifies mat
    ensures BfsInv(Snapshot(mat), zs, q, todo)
    ensures |todo| < |before| || (todo == before && q == waiting)
  {
    q, todo := waiting, before;
    for d := 0 to 4
      invariant cell in Snapshot(mat) && RelaxInv(Snapshot(mat), zs, q, todo, cell, d)
      invariant |todo| < |before| || (todo == before && q == waiting)
    {
      q, todo := Visit(mat, q, cell, d, zs, todo);
    }
    Finish(Snapshot(mat), zs, q, todo, cell);
  }

  /** With nothing left to dequeue the matrix holds the answer. */
  lemma Answer(mat: array2<int>, lab: Labels, zs: set<Cell>, todo: set<Cell>)
    requires lab == Snapshot(mat) && BfsInv(lab, zs, [], todo)
    ensures forall i, j :: 0 <= i < mat.Length0 && 0 <= j < mat.Length1 ==>
              if zs == {} then mat[i, j] == -1 else Nearest(zs, (i, j), mat[i, j])
  {
    LabelsAreDistances(lab, mat.Length0, mat.Length1, zs);
    forall i, j | 0 <= i < mat.Length0 && 0 <= j < mat.Length1
      ensures if zs == {} then mat[i, j] == -1 else Nearest(zs, (i, j), mat[i, j])
    {
      assert (i, j) in lab;
    }
  }

  /** In place, every cell becomes its distance to the nearest zero; without a zero, all become -1. */
  method UpdateMatrix(mat: array2<int>)
    modifies mat
    ensures var zs := Zeros(old(Snapshot(mat)));
            forall i, j :: 0 <= i < mat.Length0 && 0 <= j < mat.Length1 ==>
              if zs == {} then mat[i, j] == -1 else Nearest(zs, (i, j), mat[i, j])
  {
    ghost var zs := Zeros(Snapshot(mat));
    var q, todo := Seed(mat);
    while q != []
      invariant BfsInv(Snapshot(mat), zs, q, todo)
      decreases |todo|, |q|
    {
      hide BfsInv, RelaxInv;
      Dequeue(Snapshot(mat), zs, q, todo);
      q, todo := Expand(mat, q[1..], q[0], zs, todo);
    }
    Answer(mat, Snapshot(mat), zs, todo);
  }
}
