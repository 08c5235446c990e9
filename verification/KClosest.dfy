/** K Closest Points to Origin: in-place quickselect and a bounded max-heap, and why they agree. */
module KClosest {

  datatype Point = Point(x: int, y: int)

  function Dist(p: Point): int {
    p.x * p.x + p.y * p.y
  }

  function Plus(p: Point, q: Point): Point { Point(p.x + q.x, p.y + q.y) }

  function Minus(p: Point, q: Point): Point { Point(p.x - q.x, p.y - q.y) }

  /** The laws of a squared length: unit vectors have length one, mirroring keeps lengths, and the
      parallelogram law holds. */
  ghost predicate SquaredLength(f: Point -> int) {
    && f(Point(1, 0)) == 1 && f(Point(0, 1)) == 1
    && (forall x, y :: f(Point(x, y)) == f(Point(-x, y)) && f(Point(x, y)) == f(Point(x, -y)))
    && (forall p, q :: f(Plus(p, q)) + f(Minus(p, q)) == 2 * f(p) + 2 * f(q))
  }

  lemma DistIsSquaredLength()
    ensures SquaredLength(Dist)
  {
    DistOf(1, 0);
    DistOf(0, 1);
    hide Dist;
    forall x, y ensures Dist(Point(x, y)) == Dist(Point(-x, y)) && Dist(Point(x, y)) == Dist(Point(x, -y)) {
      DistMirrors(x, y);
    }
    forall p, q ensures Dist(Plus(p, q)) + Dist(Minus(p, q)) == 2 * Dist(p) + 2 * Dist(q) {
      DistParallelogram(p, q);
    }
  }

  lemma DistMirrors(x: int, y: int)
    ensures Dist(Point(x, y)) == Dist(Point(-x, y)) && Dist(Point(x, y)) == Dist(Point(x, -y))
  {
    Mirror(x);
    Mirror(y);
  }

  lemma DistParallelogram(p: Point, q: Point)
    ensures Dist(Plus(p, q)) + Dist(Minus(p, q)) == 2 * Dist(p) + 2 * Dist(q)
  {
    Parallelogram(p.x, q.x);
    Parallelogram(p.y, q.y);
  }

  lemma DistOf(x: int, y: int)
    ensures Dist(Point(x, y)) == x * x + y * y
  {
  }

  lemma Mirror(x: int)
    ensures (-x) * (-x) == x * x
  {
  }

  lemma Parallelogram(a: int, b: int)
    ensures (a + b) * (a + b) + (a - b) * (a - b) == 2 * (a * a) + 2 * (b * b)
  {
  }

  lemma LawAt(f: Point -> int, x: int, y: int, x': int, y': int)
    requires SquaredLength(f)
    ensures f(Point(x + x', y + y')) + f(Point(x - x', y - y')) == 2 * f(Point(x, y)) + 2 * f(Point(x', y'))
  {
    var p, q := Point(x, y), Point(x', y');
    assert f(Plus(p, q)) + f(Minus(p, q)) == 2 * f(p) + 2 * f(q);
  }

  lemma Units(f: Point -> int)
    requires SquaredLength(f)
    ensures f(Point(1, 0)) == 1 == f(Point(0, 1))
  {
  }

  lemma {:induction false} AlongAxes(f: Point -> int, n: nat)
    requires SquaredLength(f)
    ensures f(Point(n, 0)) == n * n && f(Point(0, n)) == n * n
  {
    Units(f);
    hide SquaredLength;
    if n == 0 {
      LawAt(f, 0, 0, 0, 0);
    } else if n > 1 {
      AlongAxes(f, n - 1);
      AlongAxes(f, n - 2);
      LawAt(f, n - 1, 0, 1, 0);
      LawAt(f, 0, n - 1, 0, 1);
      Parallelogram(n - 1, 1);
    }
  }

  /** These laws leave only one function, so distances are compared by Euclidean length. */
  lemma SquaredLengthUnique(f: Point -> int, p: Point)
    requires SquaredLength(f)
    ensures f(p) == Dist(p)
  {
    hide SquaredLength;
    Mirrored(f, p);
    InQuadrant(f, Point(Abs(p.x), Abs(p.y)));
    Mirror(p.x);
    Mirror(p.y);
  }

  function Abs(x: int): nat { if x < 0 then -x else x }

  lemma Mirrored(f: Point -> int, p: Point)
    requires SquaredLength(f)
    ensures f(p) == f(Point(Abs(p.x), Abs(p.y)))
  {
    assert f(Point(p.x, p.y)) == f(Point(-p.x, p.y));
    assert f(Point(Abs(p.x), p.y)) == f(Point(Abs(p.x), -p.y));
  }

  lemma InQuadrant(f: Point -> int, p: Point)
    requires SquaredLength(f) && p.x >= 0 && p.y >= 0
    ensures f(p) == p.x * p.x + p.y * p.y
  {
    AlongAxes(f, p.x);
    AlongAxes(f, p.y);
    LawAt(f, p.x, 0, 0, p.y);
    assert f(Point(p.x, p.y)) == f(Point(p.x, -p.y));
  }

  // ---------------------------------------------------------------- what is asked for

  ghost predicate Closer(a: multiset<Point>, b: multiset<Point>) {
    forall p, q :: p in a && q in b ==> Dist(p) <= Dist(q)
  }

  /** `res` is a choice of `min(k, n)` of the points, none farther than a point left out. */
  ghost predicate KNearest(points: seq<Point>, k: nat, res: seq<Point>) {
    && |res| == (if k < |points| then k else |points|)
    && multiset(res) <= multiset(points)
    && Closer(multiset(res), multiset(points) - multiset(res))
  }

  lemma InCoordinates(points: seq<Point>, k: nat, res: seq<Point>)
    requires KNearest(points, k, res)
    ensures forall p, q :: p in multiset(res) && q in multiset(points) - multiset(res) ==>
              p.x * p.x + p.y * p.y <= q.x * q.x + q.y * q.y
  {
    forall p, q | p in multiset(res) && q in multiset(points) - multiset(res)
      ensures p.x * p.x + p.y * p.y <= q.x * q.x + q.y * q.y
    {
      assert Dist(p) <= Dist(q);
    }
  }

  /** The distances of a sequence of points, with repetitions. */
  ghost function Distances(s: seq<Point>): (d: multiset<int>)
    ensures |d| == |s|
  {
    if s == [] then multiset{} else multiset{Dist(s[0])} + Distances(s[1..])
  }

  lemma {:induction false} DistancesHas(s: seq<Point>, d: int)
    ensures d in Distances(s) <==> exists p :: p in multiset(s) && Dist(p) == d
  {
    hide Dist;
    if s != [] {
      DistancesHas(s[1..], d);
      assert s == [s[0]] + s[1..];
      assert multiset(s) == multiset{s[0]} + multiset(s[1..]);
      if d in Distances(s) && d != Dist(s[0]) {
        var p :| p in multiset(s[1..]) && Dist(p) == d;
        assert p in multiset(s);
      }
    }
  }

  lemma SumAssoc<T>(a: multiset<T>, b: multiset<T>, c: multiset<T>)
    ensures (a + b) + c == a + (b + c) == (a + c) + b
  {
  }

  lemma Cancel<T>(x: T, a: multiset<T>, b: multiset<T>)
    requires multiset{x} + a == multiset{x} + b
    ensures a == b
  {
    assert a == (multiset{x} + a) - multiset{x};
  }

  lemma {:induction false} DistancesConcat(s: seq<Point>, t: seq<Point>)
    ensures Distances(s + t) == Distances(s) + Distances(t)
  {
    hide Dist;
    if s == [] {
      assert s + t == t;
    } else {
      var d := multiset{Dist(s[0])};
      assert (s + t)[0] == s[0] && (s + t)[1..] == s[1..] + t;
      DistancesConcat(s[1..], t);
      SumAssoc(d, Distances(s[1..]), Distances(t));
    }
  }

  /** Taking out the point at `i`. */
  lemma DistancesRemove(t: seq<Point>, i: nat)
    requires i < |t|
    ensures var rest := t[..i] + t[i + 1..];
            && multiset(t) == multiset{t[i]} + multiset(rest)
            && Distances(t) == multiset{Dist(t[i])} + Distances(rest)
  {
    hide Dist;
    var l, r := t[..i], t[i + 1..];
    assert t == l + ([t[i]] + r);
    DistancesConcat(l, [t[i]] + r);
    assert ([t[i]] + r)[1..] == r;
    DistancesConcat(l, r);
    SumAssoc(multiset{Dist(t[i])}, Distances(l), Distances(r));
    SumAssoc(Distances(l), multiset{Dist(t[i])}, Distances(r));
  }

  /** Equal points, equal distances, in whatever order. */
  lemma {:induction false} DistancesPermute(s: seq<Point>, t: seq<Point>)
    requires multiset(s) == multiset(t)
    ensures Distances(s) == Distances(t)
  {
    hide Dist;
    if s == [] {
      assert |multiset(t)| == 0;
    } else {
      assert s[0] in multiset(t);
      var i :| 0 <= i < |t| && t[i] == s[0];
      var rest := t[..i] + t[i + 1..];
      DistancesRemove(t, i);
      assert s == [s[0]] + s[1..];
      Cancel(s[0], multiset(s[1..]), multiset(rest));
      DistancesPermute(s[1..], rest);
    }
  }

  /** A multiset splits into a lower part of given size and an upper part in one way only. */
  lemma LowerPartUnique(a: multiset<int>, b: multiset<int>, a': multiset<int>, b': multiset<int>)
    requires a + b == a' + b' && |a| == |a'|
    requires forall x, y :: x in a && y in b ==> x <= y
    requires forall x, y :: x in a' && y in b' ==> x <= y
    ensures a == a'
  {
    if a != a' {
      MoreSomewhere(a, a');
      MoreSomewhere(a', a);
      var x :| a[x] > a'[x];
      var y :| a'[y] > a[y];
      SumsAgree(a, b, a', b', x);
      SumsAgree(a, b, a', b', y);
      assert false;
    }
  }

  lemma SumsAgree(a: multiset<int>, b: multiset<int>, a': multiset<int>, b': multiset<int>, x: int)
    requires a + b == a' + b'
    ensures a[x] + b[x] == a'[x] + b'[x]
  {
    assert (a + b)[x] == (a' + b')[x];
  }

  lemma MoreSomewhere(a: multiset<int>, b: multiset<int>)
    requires |a| == |b| && a != b
    ensures exists x :: a[x] > b[x]
  {
    assert (forall x :: a[x] <= b[x]) ==> b == a + (b - a) && |b| == |a| + |b - a|;
  }

  ghost function SeqOf(m: multiset<Point>): (s: seq<Point>)
    ensures multiset(s) == m
  {
    if m == multiset{} then [] else
      var p :| p in m;
      [p] + SeqOf(m - multiset{p})
  }

  /** All correct answers, from either algorithm, have the same distances. */
  lemma AnswersAgree(points: seq<Point>, k: nat, res: seq<Point>, res': seq<Point>)
    requires KNearest(points, k, res) && KNearest(points, k, res')
    ensures Distances(res) == Distances(res')
  {
    hide Dist;
    var rest := LeftOut(points, k, res);
    var rest' := LeftOut(points, k, res');
    LowerPartUnique(Distances(res), Distances(rest), Distances(res'), Distances(rest'));
  }

  lemma LeftOut(points: seq<Point>, k: nat, res: seq<Point>) returns (rest: seq<Point>)
    requires KNearest(points, k, res)
    ensures Distances(res) + Distances(rest) == Distances(points)
    ensures forall x, y :: x in Distances(res) && y in Distances(rest) ==> x <= y
  {
    hide Dist;
    rest := SeqOf(multiset(points) - multiset(res));
    DistancesPermute(res + rest, points);
    DistancesConcat(res, rest);
    ApartDistances(res, rest);
  }

  lemma ApartDistances(s: seq<Point>, t: seq<Point>)
    requires Closer(multiset(s), multiset(t))
    ensures forall x, y :: x in Distances(s) && y in Distances(t) ==> x <= y
  {
    hide Dist;
    forall x, y | x in Distances(s) && y in Distances(t) ensures x <= y {
      DistancesHas(s, x);
      DistancesHas(t, y);
    }
  }

  // ---------------------------------------------------------------- quickselect

  /** Nothing before position `c` is farther than anything from `c` on. */
  ghost predicate Split(s: seq<Point>, c: int) {
    forall i, j :: 0 <= i < c <= j < |s| ==> Dist(s[i]) <= Dist(s[j])
  }

  lemma SplitIsKNearest(points: seq<Point>, s: seq<Point>, k: nat)
    requires multiset(s) == multiset(points) && k <= |s| && Split(s, k)
    ensures KNearest(points, k, s[..k])
  {
    hide Dist;
    assert s == s[..k] + s[k..];
    assert multiset(points) - multiset(s[..k]) == multiset(s[k..]);
    assert |multiset(s)| == |s| && |multiset(points)| == |points|;
    forall p, q | p in multiset(s[..k]) && q in multiset(s[k..]) ensures Dist(p) <= Dist(q) {
      var i :| 0 <= i < k && s[..k][i] == p;
      var j :| 0 <= j < |s| - k && s[k..][j] == q;
      assert Dist(s[i]) <= Dist(s[k + j]);
    }
  }

  method Swap(a: array<Point>, i: nat, j: nat)
    requires i < a.Length && j < a.Length
    modifies a
    ensures a[..] == Swapped(old(a[..]), i, j)
    ensures multiset(a[..]) == multiset(old(a[..]))
  {
    a[i], a[j] := a[j], a[i];
  }

  /** Swapping within one side of a split keeps it. */
  lemma SplitSwap(s: seq<Point>, c: int, i: nat, j: nat)
    requires Split(s, c) && i < |s| && j < |s| && (i < c <==> j < c)
    ensures Split(Swapped(s, i, j), c)
  {
    hide Dist;
  }

  /** During a pass: up to `i` no farther than the pivot at `right`, from there to `j` farther. */
  ghost predicate Parting(s: seq<Point>, left: nat, right: nat, i: nat, j: nat) {
    && left <= i <= j <= right < |s|
    && Split(s, left) && Split(s, right + 1)
    && (forall x :: left <= x < i ==> Dist(s[x]) <= Dist(s[right]))
    && (forall x :: i <= x < j ==> Dist(s[right]) < Dist(s[x]))
  }

  ghost function Swapped(s: seq<Point>, i: nat, j: nat): seq<Point>
    requires i < |s| && j < |s|
  {
    s[i := s[j]][j := s[i]]
  }

  lemma PartingStep(s: seq<Point>, left: nat, right: nat, i: nat, j: nat)
    requires Parting(s, left, right, i, j) && j < right
    ensures Dist(s[j]) <= Dist(s[right]) ==> Parting(Swapped(s, i, j), left, right, i + 1, j + 1)
    ensures Dist(s[j]) > Dist(s[right]) ==> Parting(s, left, right, i, j + 1)
  {
    hide Dist, Split;
    SplitSwap(s, left, i, j);
    SplitSwap(s, right + 1, i, j);
  }

  /** Putting the pivot in its place, which splits the segment around it. */
  lemma PartingEnd(s: seq<Point>, left: nat, right: nat, i: nat)
    requires Parting(s, left, right, i, right)
    ensures var t := Swapped(s, i, right);
            Split(t, left) && Split(t, right + 1) && Split(t, i) && Split(t, i + 1)
  {
    hide Dist;
    var t := Swapped(s, i, right);
    SplitSwap(s, left, i, right);
    SplitSwap(s, right + 1, i, right);
    PivotSplits(t, left, right, i);
  }

  /** One pass around the pivot `points[right]`, which ends up at `i`. */
  method Partition(a: array<Point>, left: nat, right: nat) returns (i: nat)
    requires left <= right < a.Length
    requires Split(a[..], left) && Split(a[..], right + 1)
    modifies a
    ensures multiset(a[..]) == multiset(old(a[..])) && left <= i <= right
    ensures Split(a[..], left) && Split(a[..], right + 1) && Split(a[..], i) && Split(a[..], i + 1)
  {
    var pivotDist := Dist(a[right]);
    i := left;
    for j := left to right
      invariant pivotDist == Dist(a[right])
      invariant Parting(a[..], left, right, i, j)
      invariant multiset(a[..]) == multiset(old(a[..]))
    {
      hide Dist, Split;
      PartingStep(a[..], left, right, i, j);
      if Dist(a[j]) <= pivotDist {
        Swap(a, i, j);
        i := i + 1;
      }
    }
    PartingEnd(a[..], left, right, i);
    Swap(a, i, right);
  }

  lemma PivotSplits(s: seq<Point>, left: nat, right: nat, i: nat)
    requires left <= i <= right < |s| && Split(s, left) && Split(s, right + 1)
    requires forall x :: left <= x <= i ==> Dist(s[x]) <= Dist(s[i])
    requires forall x :: i < x <= right ==> Dist(s[i]) < Dist(s[x])
    ensures Split(s, i) && Split(s, i + 1)
  {
    hide Dist;
  }

  /** Permutes the points so that the first `k` answer the question. For `1 <= k < n` the target
      stays between `left` and `right`, so the loop always leaves by its break. */
  method QuickSelect(a: array<Point>, k: nat) returns (res: seq<Point>, ghost broke: bool)
    modifies a
    ensures multiset(a[..]) == multiset(old(a[..]))
    ensures KNearest(old(a[..]), k, res)
    ensures forall p, q :: p in multiset(res) && q in multiset(old(a[..])) - multiset(res) ==>
              p.x * p.x + p.y * p.y <= q.x * q.x + q.y * q.y
    ensures k < a.Length ==> res == a[..k] && Split(a[..], k)
    ensures k >= a.Length ==> res == a[..] == old(a[..])
    ensures 1 <= k < a.Length ==> broke
  {
    hide Dist;
    if k >= a.Length {
      AllAreNearest(a[..], k);
      InCoordinates(a[..], k, a[..]);
      return a[..], false;
    }
    var left, right := 0, a.Length - 1;
    var target := k - 1;
    var done := false;
    while left <= right && !done
      invariant 0 <= left <= right + 1 <= a.Length
      invariant multiset(a[..]) == multiset(old(a[..]))
      invariant Split(a[..], left) && Split(a[..], right + 1)
      invariant k == 0 ==> left == 0 && !done
      invariant k > 0 ==> left <= target <= right && (done ==> Split(a[..], k))
      decreases !done, right - left
    {
      var i := Partition(a, left, right);
      if i == target {
        done := true;
      } else if i < target {
        left := i + 1;
      } else {
        right := i - 1;
      }
    }
    SplitIsKNearest(old(a[..]), a[..], k);
    InCoordinates(old(a[..]), k, a[..k]);
    return a[..k], done;
  }

  lemma AllAreNearest(points: seq<Point>, k: nat)
    requires k >= |points|
    ensures KNearest(points, k, points)
  {
  }

  // ---------------------------------------------------------------- the bounded heap

  /** Entries of the priority queue, compared as pairs. */
  datatype Entry = Entry(dist: int, index: nat)

  predicate Below(a: Entry, b: Entry) {
    a.dist < b.dist || (a.dist == b.dist && a.index <= b.index)
  }

  lemma {:induction false} TopExists(pq: set<Entry>)
    requires pq != {}
    ensures exists top :: top in pq && forall e :: e in pq ==> Below(e, top)
  {
    var e :| e in pq;
    if pq != {e} {
      assert pq == {e} + (pq - {e});
      TopExists(pq - {e});
      var top :| top in pq - {e} && forall x :: x in pq - {e} ==> Below(x, top);
      var best := if Below(e, top) then top else e;
      forall x | x in pq ensures Below(x, best) {
        assert x == e || x in pq - {e};
      }
    }
  }

  method Pop(pq: set<Entry>) returns (top: Entry, rest: set<Entry>)
    requires pq != {}
    ensures top in pq && rest == pq - {top} && forall e :: e in pq ==> Below(e, top)
  {
    TopExists(pq);
    top :| top in pq && forall e :: e in pq ==> Below(e, top);
    rest := pq - {top};
  }

  ghost function OnlyIf<T>(cond: bool, x: T): multiset<T> {
    if cond then multiset{x} else multiset{}
  }

  lemma EitherAdds<T>(a: multiset<T>, b: multiset<T>, cond: bool, x: T)
    ensures (a + OnlyIf(cond, x)) + (b + OnlyIf(!cond, x)) == (a + b) + multiset{x}
  {
  }

  /** The points named by the entries of `pq` among the first `n`. */
  ghost function Chosen(points: seq<Point>, pq: set<Entry>, n: nat): multiset<Point>
    requires n <= |points|
  {
    if n == 0 then multiset{} else
      Chosen(points, pq, n - 1) + OnlyIf(Entry(Dist(points[n - 1]), n - 1) in pq, points[n - 1])
  }

  /** And the points not named. */
  ghost function Dropped(points: seq<Point>, pq: set<Entry>, n: nat): multiset<Point>
    requires n <= |points|
  {
    if n == 0 then multiset{} else
      Dropped(points, pq, n - 1) + OnlyIf(Entry(Dist(points[n - 1]), n - 1) !in pq, points[n - 1])
  }

  ghost predicate HeapInv(points: seq<Point>, pq: set<Entry>, k: nat, n: nat)
    requires n <= |points|
  {
    && (forall e :: e in pq ==> e.index < n && e.dist == Dist(points[e.index]))
    && |pq| == (if n < k then n else k)
    && (n <= k ==> forall j :: 0 <= j < n ==> Entry(Dist(points[j]), j) in pq)
    && forall e, j :: e in pq && 0 <= j < n && Entry(Dist(points[j]), j) !in pq ==> Below(e, Entry(Dist(points[j]), j))
  }

  lemma {:induction false} ChosenSplits(points: seq<Point>, pq: set<Entry>, n: nat)
    requires n <= |points|
    ensures Chosen(points, pq, n) + Dropped(points, pq, n) == multiset(points[..n])
  {
    hide Dist, OnlyIf;
    if n > 0 {
      ChosenSplits(points, pq, n - 1);
      MultisetSnoc(points, n);
      EitherAdds(Chosen(points, pq, n - 1), Dropped(points, pq, n - 1), Entry(Dist(points[n - 1]), n - 1) in pq, points[n - 1]);
    }
  }

  lemma MultisetSnoc(points: seq<Point>, n: nat)
    requires 0 < n <= |points|
    ensures multiset(points[..n]) == multiset(points[..n - 1]) + multiset{points[n - 1]}
  {
    assert points[..n] == points[..n - 1] + [points[n - 1]];
  }

  lemma {:induction false} ChosenHas(points: seq<Point>, pq: set<Entry>, n: nat, p: Point)
    requires n <= |points|
    ensures p in Chosen(points, pq, n) ==> exists j :: 0 <= j < n && points[j] == p && Entry(Dist(points[j]), j) in pq
    ensures p in Dropped(points, pq, n) ==> exists j :: 0 <= j < n && points[j] == p && Entry(Dist(points[j]), j) !in pq
  {
    hide Dist;
    if n > 0 {
      ChosenHas(points, pq, n - 1, p);
    }
  }

  lemma {:induction false} ChosenWithout(points: seq<Point>, pq: set<Entry>, n: nat, e: Entry)
    requires n <= |points| && e in pq && e.index < |points| && e.dist == Dist(points[e.index])
    ensures Chosen(points, pq, n) == Chosen(points, pq - {e}, n) + OnlyIf(e.index < n, points[e.index])
  {
    hide Dist, OnlyIf;
    OnlyIfNot(multiset{}, points[e.index]);
    if n > 0 {
      ChosenWithout(points, pq, n - 1, e);
      var last, p := Entry(Dist(points[n - 1]), n - 1), points[n - 1];
      var m := Chosen(points, pq - {e}, n - 1);
      assert last in pq - {e} <==> last in pq && e.index != n - 1;
      if e.index == n - 1 {
        OnlyIfNot(m, p);
      } else {
        SumAssoc(m, OnlyIf(e.index < n, points[e.index]), OnlyIf(last in pq, p));
      }
    }
  }

  lemma OnlyIfNot<T>(m: multiset<T>, x: T)
    ensures m + OnlyIf(false, x) == m
  {
  }

  lemma {:induction false} ChosenNone(points: seq<Point>, n: nat)
    requires n <= |points|
    ensures Chosen(points, {}, n) == multiset{}
  {
    hide Dist;
    if n > 0 {
      ChosenNone(points, n - 1);
    }
  }

  lemma OfferFits(points: seq<Point>, pq: set<Entry>, k: nat, i: nat)
    requires i < |points| && HeapInv(points, pq, k, i) && i < k
    ensures Entry(Dist(points[i]), i) !in pq && HeapInv(points, pq + {Entry(Dist(points[i]), i)}, k, i + 1)
  {
    hide Dist;
  }

  lemma OfferDrops(points: seq<Point>, pq: set<Entry>, k: nat, i: nat, top: Entry)
    requires i < |points| && HeapInv(points, pq, k, i) && k <= i
    requires top in pq + {Entry(Dist(points[i]), i)} && forall e :: e in pq + {Entry(Dist(points[i]), i)} ==> Below(e, top)
    ensures HeapInv(points, pq + {Entry(Dist(points[i]), i)} - {top}, k, i + 1)
  {
    hide Dist;
    var e := Entry(Dist(points[i]), i);
    var all := pq + {e};
    assert e !in pq && |all| == k + 1;
    assert all == (all - {top}) + {top};
    forall x, j | x in all - {top} && 0 <= j < i + 1 && Entry(Dist(points[j]), j) !in all - {top}
      ensures Below(x, Entry(Dist(points[j]), j))
    {
      assert Below(x, top);
      if Entry(Dist(points[j]), j) != top {
        assert j < i && Entry(Dist(points[j]), j) !in pq;
        if x == e {
          assert top in pq;
        }
      }
    }
  }

  /** Push the next point, then drop the farthest if there are too many. */
  method Offer(points: seq<Point>, pq: set<Entry>, k: nat, i: nat) returns (next: set<Entry>)
    requires i < |points| && HeapInv(points, pq, k, i)
    ensures HeapInv(points, next, k, i + 1)
  {
    hide Dist, Below;
    var e := Entry(Dist(points[i]), i);
    assert e !in pq;
    next := pq + {e};
    if |next| > k {
      var top;
      top, next := Pop(next);
      OfferDrops(points, pq, k, i, top);
    } else {
      OfferFits(points, pq, k, i);
    }
  }

  /** Point `i` comes before point `j`: it is nearer, or as near and earlier in the input. */
  ghost predicate Before(points: seq<Point>, i: nat, j: nat)
    requires i < |points| && j < |points|
  {
    Dist(points[i]) < Dist(points[j]) || (Dist(points[i]) == Dist(points[j]) && i < j)
  }

  /** The heap version; its answer comes farthest first. It is one answer: of equally near points the
      earlier ones are kept, and they are returned after the later ones. */
  method HeapSelect(points: seq<Point>, k: nat) returns (res: seq<Point>, ghost index: seq<nat>)
    ensures KNearest(points, k, res)
    ensures forall p, q :: p in multiset(res) && q in multiset(points) - multiset(res) ==>
              p.x * p.x + p.y * p.y <= q.x * q.x + q.y * q.y
    ensures |index| == |res| && forall i :: 0 <= i < |res| ==> index[i] < |points| && res[i] == points[index[i]]
    ensures forall i, j :: 0 <= i < j < |res| ==> Before(points, index[j], index[i])
    ensures forall i, n: nat :: 0 <= i < |res| && n < |points| && n !in index ==> Before(points, index[i], n)
  {
    hide Dist;
    var pq: set<Entry> := {};
    for i := 0 to |points|
      invariant HeapInv(points, pq, k, i)
    {
      pq := Offer(points, pq, k, i);
    }
    ghost var taken;
    res, taken := Drain(points, pq);
    index := seq(|taken|, i requires 0 <= i < |taken| => taken[i].index);
    HeapIsKNearest(points, pq, k, res);
    InCoordinates(points, k, res);
    HeapOrder(points, pq, k, taken, index);
  }

  lemma HeapOrder(points: seq<Point>, pq: set<Entry>, k: nat, taken: seq<Entry>, index: seq<nat>)
    requires HeapInv(points, pq, k, |points|) && |index| == |taken|
    requires forall e :: e in pq <==> e in taken
    requires forall i, j :: 0 <= i < j < |taken| ==> Below(taken[j], taken[i]) && taken[i] != taken[j]
    requires forall i :: 0 <= i < |taken| ==> index[i] == taken[i].index
    ensures forall i :: 0 <= i < |index| ==> index[i] < |points|
    ensures forall i, j :: 0 <= i < j < |index| ==> Before(points, index[j], index[i])
    ensures forall i, n: nat :: 0 <= i < |index| && n < |points| && n !in index ==> Before(points, index[i], n)
  {
    hide Dist;
    forall i | 0 <= i < |taken| ensures taken[i] in pq && taken[i].index < |points| && taken[i].dist == Dist(points[taken[i].index]) {
      assert taken[i] in taken;
    }
    forall i, n: nat | 0 <= i < |index| && n < |points| && n !in index ensures Before(points, index[i], n) {
      var e := Entry(Dist(points[n]), n);
      forall j | 0 <= j < |taken| ensures taken[j] != e {
        assert index[j] in index;
      }
      assert Below(taken[i], e);
      assert index[i] in index;
    }
  }

  ghost predicate Draining(points: seq<Point>, best: set<Entry>, pq: set<Entry>, res: seq<Point>, taken: seq<Entry>) {
    && pq <= best && |res| + |pq| == |best|
    && (forall e :: e in best ==> e.index < |points| && e.dist == Dist(points[e.index]))
    && multiset(res) + Chosen(points, pq, |points|) == Chosen(points, best, |points|)
    && |taken| == |res| && (forall i :: 0 <= i < |taken| ==> taken[i].index < |points| && res[i] == points[taken[i].index])
    && (forall e :: e in best <==> e in pq || e in taken)
    && (forall e, i :: e in pq && 0 <= i < |taken| ==> Below(e, taken[i]) && e != taken[i])
    && (forall i, j :: 0 <= i < j < |taken| ==> Below(taken[j], taken[i]) && taken[i] != taken[j])
  }

  lemma DrainStep(points: seq<Point>, best: set<Entry>, pq: set<Entry>, res: seq<Point>, taken: seq<Entry>, top: Entry)
    requires Draining(points, best, pq, res, taken) && top in pq && forall e :: e in pq ==> Below(e, top)
    ensures top.index < |points| && Draining(points, best, pq - {top}, res + [points[top.index]], taken + [top])
  {
    hide Dist, Chosen, Below;
    var rest, p := pq - {top}, points[top.index];
    assert pq == rest + {top};
    ChosenWithout(points, pq, |points|, top);
    assert multiset(res + [p]) == multiset(res) + multiset{p};
    SumAssoc(multiset(res), multiset{p}, Chosen(points, rest, |points|));
    assert forall e :: e in taken + [top] <==> e in taken || e == top;
  }

  /** Empties the queue, farthest first. */
  method Drain(points: seq<Point>, best: set<Entry>) returns (res: seq<Point>, ghost taken: seq<Entry>)
    requires forall e :: e in best ==> e.index < |points| && e.dist == Dist(points[e.index])
    ensures multiset(res) == Chosen(points, best, |points|) && |res| == |best|
    ensures |taken| == |res| && forall i :: 0 <= i < |taken| ==> taken[i].index < |points| && res[i] == points[taken[i].index]
    ensures forall e :: e in best <==> e in taken
    ensures forall i, j :: 0 <= i < j < |taken| ==> Below(taken[j], taken[i]) && taken[i] != taken[j]
  {
    var pq := best;
    res, taken := [], [];
    while pq != {}
      invariant Draining(points, best, pq, res, taken)
      decreases |pq|
    {
      hide Draining;
      ghost var all := pq;
      var top;
      top, pq := Pop(pq);
      assert all == pq + {top};
      DrainStep(points, best, all, res, taken, top);
      res := res + [points[top.index]];
      taken := taken + [top];
    }
    ChosenNone(points, |points|);
  }

  lemma HeapIsKNearest(points: seq<Point>, pq: set<Entry>, k: nat, res: seq<Point>)
    requires HeapInv(points, pq, k, |points|) && |res| == |pq| && multiset(res) == Chosen(points, pq, |points|)
    ensures KNearest(points, k, res)
  {
    hide Dist, Chosen, Dropped;
    var n := |points|;
    ChosenSplits(points, pq, n);
    assert points[..n] == points;
    assert multiset(points) - Chosen(points, pq, n) == Dropped(points, pq, n);
    forall p, q | p in Chosen(points, pq, n) && q in Dropped(points, pq, n) ensures Dist(p) <= Dist(q) {
      ChosenHas(points, pq, n, p);
      ChosenHas(points, pq, n, q);
    }
  }
}
