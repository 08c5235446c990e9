/** Machine words (`std::size_t`, 64 bits) and the bit masks the headers use in place of `%`. */
module Words {

  const WORD: nat := 0x1_0000_0000_0000_0000

  function Pow2(k: nat): (p: nat)
    ensures p >= 1
  {
    if k == 0 then 1 else 2 * Pow2(k - 1)
  }

  /** Bitwise `x & y` on naturals, one bit at a time. */
  function BitAnd(x: nat, y: nat): (r: nat)
    ensures r <= y
  {
    if x == 0 || y == 0 then 0
    else (if x % 2 == 1 && y % 2 == 1 then 1 else 0) + 2 * BitAnd(x / 2, y / 2)
  }

  /** Bit `k` of a word. */
  function Bit(x: nat, k: nat): nat {
    x / Pow2(k) % 2
  }

  lemma {:induction false} HalfBit(x: nat, k: nat)
    requires k > 0
    ensures Bit(x, k) == Bit(x / 2, k - 1)
  {
    var p := Pow2(k - 1);
    var q, r := x / 2 / p, x / 2 % p;
    assert x / 2 == p * q + r;
    assert 2 * (p * q) == (2 * p) * q;
    DivModUnique(x, 2 * p, q, 2 * r + x % 2);
  }

  /** Each bit of `x & y` is set exactly if it is set in both. */
  lemma {:induction false} BitAndBits(x: nat, y: nat, k: nat)
    ensures Bit(BitAnd(x, y), k) == if Bit(x, k) == 1 && Bit(y, k) == 1 then 1 else 0
    decreases k
  {
    if x == 0 || y == 0 {
      ZeroBit(k);
    } else if k > 0 {
      var r := BitAnd(x, y);
      assert r / 2 == BitAnd(x / 2, y / 2);
      HalfBit(r, k);
      HalfBit(x, k);
      HalfBit(y, k);
      BitAndBits(x / 2, y / 2, k - 1);
    }
  }

  lemma ZeroBit(k: nat)
    ensures Bit(0, k) == 0
  {
    DivModUnique(0, Pow2(k), 0, 0);
  }

  /** Arithmetic on `std::size_t` wraps. */
  function Wrap(x: int): (w: nat)
    ensures w < WORD
    ensures 0 <= x < WORD ==> w == x
  {
    x % WORD
  }

  ghost predicate IsPow2(n: nat) {
    exists k: nat :: n == Pow2(k)
  }

  /** Quotient and remainder are determined by the division equation. */
  lemma DivModUnique(x: int, m: nat, q: int, r: int)
    requires x == m * q + r && 0 <= r < m
    ensures x % m == r && x / m == q
  {
    var d := q - x / m;
    assert x == m * (x / m) + x % m;
    assert m * d == x % m - r by {
      assert m * d == m * q - m * (x / m);
    }
    SmallMultiple(m, d);
  }

  lemma SmallMultiple(m: int, d: int)
    requires -m < m * d < m
    ensures d == 0
  {
    assert d >= 1 ==> m * (d - 1) >= 0;
    assert d <= -1 ==> m * (-1 - d) >= 0;
    assert m * (d - 1) == m * d - m && m * (-1 - d) == -m - m * d;
  }

  /** The low bit and the rest of a remainder. */
  lemma DoubleMod(x: nat, p: nat)
    requires p >= 1
    ensures x % (2 * p) == x % 2 + 2 * ((x / 2) % p)
  {
    var h := x / 2;
    var q, r := h / p, h % p;
    assert h == p * q + r;
    assert 2 * (p * q) == (2 * p) * q;
    DivModUnique(x, 2 * p, q, 2 * r + x % 2);
  }

  /** `index & (N - 1)` is `index % N` for a power of two. */
  lemma {:induction false} MaskIsMod(x: nat, k: nat)
    ensures BitAnd(x, Pow2(k) - 1) == x % Pow2(k)
  {
    if k > 0 {
      hide BitAnd;
      var p := Pow2(k - 1);
      MaskIsMod(x / 2, k - 1);
      DoubleMod(x, p);
      LowBitOn(x, p - 1);
    }
  }

  lemma LowBitOn(x: nat, y: nat)
    ensures BitAnd(x, 2 * y + 1) == x % 2 + 2 * BitAnd(x / 2, y)
  {
    assert (2 * y + 1) / 2 == y;
  }

  lemma LowBitOff(x: nat, y: nat)
    ensures BitAnd(x, 2 * y) == 2 * BitAnd(x / 2, y)
  {
    assert (2 * y) / 2 == y;
  }

  /** The `static_assert` on capacities: `n & (n - 1)` is zero exactly on powers of two. */
  lemma {:induction false} PowerOfTwoTest(n: nat)
    requires n > 0
    ensures BitAnd(n, n - 1) == 0 <==> IsPow2(n)
  {
    if n == 1 {
      assert n == Pow2(0);
    } else if n % 2 == 0 {
      var h := n / 2;
      PowerOfTwoTest(h);
      assert (n - 1) / 2 == h - 1;
      assert BitAnd(n, n - 1) == 2 * BitAnd(h, h - 1);
      if IsPow2(h) {
        var k: nat :| h == Pow2(k);
        assert n == Pow2(k + 1);
      }
      if IsPow2(n) {
        var k: nat :| n == Pow2(k);
        assert k > 0;
        assert h == Pow2(k - 1);
      }
    } else {
      var h := n / 2;
      assert (n - 1) / 2 == h && (n - 1) % 2 == 0;
      AndSelf(h);
      assert BitAnd(n, n - 1) == 2 * h;
      assert forall k: nat :: Pow2(k) % 2 == 1 ==> k == 0;
    }
  }

  lemma {:induction false} AndSelf(x: nat)
    ensures BitAnd(x, x) == x
  {
    if x > 0 {
      AndSelf(x / 2);
    }
  }

  /** `x & ~(2^k - 1)` on `w`-bit words rounds down to a multiple of `2^k`. */
  lemma {:induction false} ClearLowBits(x: nat, k: nat, w: nat)
    requires k <= w && x < Pow2(w)
    ensures Pow2(k) <= Pow2(w)
    ensures BitAnd(x, Pow2(w) - Pow2(k)) == x - x % Pow2(k)
  {
    hide BitAnd, Pow2;
    Pow2Monotone(k, w);
    if k == 0 {
      Pow2Zero();
      FullMask(x, w);
    } else {
      Pow2Step(k);
      Pow2Step(w);
      ClearLowBits(x / 2, k - 1, w - 1);
      ClearStep(x, Pow2(k - 1), Pow2(w - 1));
    }
  }

  lemma Pow2Zero()
    ensures Pow2(0) == 1
  {
  }

  lemma Pow2Step(k: nat)
    requires k > 0
    ensures Pow2(k) == 2 * Pow2(k - 1)
  {
  }

  lemma ClearStep(x: nat, p: nat, m: nat)
    requires 1 <= p <= m && BitAnd(x / 2, m - p) == x / 2 - x / 2 % p
    ensures BitAnd(x, 2 * m - 2 * p) == x - x % (2 * p)
  {
    hide BitAnd;
    DoubleMod(x, p);
    LowBitOff(x, m - p);
    Twice(x, x / 2 % p);
    assert 2 * m - 2 * p == 2 * (m - p);
  }

  lemma Twice(x: nat, r: nat)
    ensures 2 * (x / 2 - r) == x - (x % 2 + 2 * r)
  {
  }

  lemma {:induction false} FullMask(x: nat, w: nat)
    requires x < Pow2(w)
    ensures BitAnd(x, Pow2(w) - 1) == x
  {
    if x > 0 {
      assert (2 * Pow2(w - 1) - 1) / 2 == Pow2(w - 1) - 1;
      FullMask(x / 2, w - 1);
    }
  }

  lemma {:induction false} Pow2Monotone(j: nat, k: nat)
    requires j <= k
    ensures Pow2(j) <= Pow2(k)
  {
    if j < k {
      Pow2Monotone(j, k - 1);
    }
  }

  lemma {:induction false} Pow2Split(j: nat, k: nat)
    ensures Pow2(j + k) == Pow2(j) * Pow2(k)
  {
    if j > 0 {
      Pow2Split(j - 1, k);
      assert Pow2(j + k) == 2 * Pow2(j + k - 1);
      assert 2 * (Pow2(j - 1) * Pow2(k)) == (2 * Pow2(j - 1)) * Pow2(k);
    }
  }

  lemma WordIsPow2()
    ensures WORD == Pow2(64)
  {
    assert Pow2(4) == 16;
    hide Pow2;
    Pow2Split(4, 4);
    Pow2Split(8, 8);
    Pow2Split(16, 16);
    Pow2Split(32, 32);
  }

  /** The distance between two free-running counters survives wrap-around. */
  lemma WrapDifference(a: nat, b: nat)
    requires b <= a < b + WORD
    ensures Wrap(Wrap(a) - Wrap(b)) == a - b
  {
    var i, j := a / WORD, b / WORD;
    assert Wrap(a) - Wrap(b) == a - b - WORD * (i - j);
    DivModUnique(Wrap(a) - Wrap(b), WORD, j - i, a - b);
  }

  /** Incrementing commutes with wrapping. */
  lemma WrapSuccessor(a: nat)
    ensures Wrap(Wrap(a) + 1) == Wrap(a + 1)
  {
  }

  /** The remainder of a remainder by a multiple. */
  lemma ModOfMod(x: nat, n: nat, c: nat)
    requires n > 0 && c > 0
    ensures n * c > 0 && (x % (n * c)) % n == x % n
  {
    MulPositive(n, c);
    var m := n * c;
    var q, w := x / m, x % m;
    assert x == m * q + w && w == n * (w / n) + w % n;
    assert m * q == n * (c * q);
    assert n * (c * q) + n * (w / n) == n * (c * q + w / n);
    DivModUnique(x, n, c * q + w / n, w % n);
  }

  lemma MulPositive(n: nat, c: nat)
    requires n > 0 && c > 0
    ensures n * c > 0
  {
    assert n * c == n * (c - 1) + n;
    assert n * (c - 1) >= 0;
  }

  /** A remainder by a power of two that fits a word is not disturbed by wrap-around. */
  lemma WrapKeepsSlot(x: nat, n: nat)
    requires IsPow2(n) && n < WORD
    ensures Wrap(x) % n == x % n
  {
    var k: nat :| n == Pow2(k);
    WordIsPow2();
    if k >= 64 {
      Pow2Monotone(64, k);
    }
    Pow2Split(k, 64 - k);
    ModOfMod(x, n, Pow2(64 - k));
  }
}
