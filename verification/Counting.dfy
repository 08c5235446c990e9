/** How often a value occurs in a sequence. */
module Counting {

  function Count<T(==)>(xs: seq<T>, x: T): nat {
    if xs == [] then 0 else (if xs[0] == x then 1 else 0) + Count(xs[1..], x)
  }

  lemma {:induction false} CountUpdate<T>(xs: seq<T>, i: nat, y: T, x: T)
    requires i < |xs|
    ensures Count(xs[i := y], x) + (if xs[i] == x then 1 else 0) == Count(xs, x) + (if y == x then 1 else 0)
  {
    if i > 0 {
      CountUpdate(xs[1..], i - 1, y, x);
      assert xs[i := y][1..] == xs[1..][i - 1 := y];
    } else {
      assert xs[i := y][1..] == xs[1..];
    }
  }

  lemma {:induction false} CountAppend<T>(xs: seq<T>, y: T, x: T)
    ensures Count(xs + [y], x) == Count(xs, x) + if y == x then 1 else 0
  {
    if xs != [] {
      CountAppend(xs[1..], y, x);
      assert (xs + [y])[1..] == xs[1..] + [y];
    }
  }

  lemma {:induction false} CountZero<T>(xs: seq<T>, x: T)
    ensures Count(xs, x) == 0 <==> x !in xs
  {
    if xs != [] {
      CountZero(xs[1..], x);
      assert xs == [xs[0]] + xs[1..];
    }
  }
}
