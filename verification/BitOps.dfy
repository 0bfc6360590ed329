/** Bitwise operations on non-negative integers, and what they do with masks. */
module BitOps {
  function And(x: nat, y: nat): (r: nat)
    ensures r <= x && r <= y
  {
    if x == 0 || y == 0 then 0 else 2 * And(x / 2, y / 2) + (if x % 2 == 1 && y % 2 == 1 then 1 else 0)
  }

  function Or(x: nat, y: nat): nat
    decreases x + y
  {
    if x == 0 then y else if y == 0 then x
    else 2 * Or(x / 2, y / 2) + (if x % 2 == 1 || y % 2 == 1 then 1 else 0)
  }

  predicate Bit(x: nat, k: nat) {
    if k == 0 then x % 2 == 1 else Bit(x / 2, k - 1)
  }

  lemma {:induction false} BitOfZero(k: nat)
    ensures !Bit(0, k)
  {
    if k > 0 {
      BitOfZero(k - 1);
    }
  }

  /** Bit by bit. */
  lemma {:induction false} AndBit(x: nat, y: nat, k: nat)
    ensures Bit(And(x, y), k) <==> Bit(x, k) && Bit(y, k)
    decreases k
  {
    BitOfZero(k);
    if x != 0 && y != 0 && k > 0 {
      AndBit(x / 2, y / 2, k - 1);
    }
  }

  lemma {:induction false} OrBit(x: nat, y: nat, k: nat)
    ensures Bit(Or(x, y), k) <==> Bit(x, k) || Bit(y, k)
    decreases k
  {
    BitOfZero(k);
    if x != 0 && y != 0 && k > 0 {
      OrBit(x / 2, y / 2, k - 1);
    }
  }

  function Pow2(n: nat): (r: nat)
    ensures r > 0
  {
    if n == 0 then 1 else 2 * Pow2(n - 1)
  }

  lemma Powers()
    ensures Pow2(8) == 0x100 && Pow2(24) == 0x100_0000 && Pow2(32) == 0x1_0000_0000
  {
    assert Pow2(4) == 16 && Pow2(8) == 256 && Pow2(12) == 4096 && Pow2(16) == 65536 && Pow2(20) == 0x10_0000;
    assert Pow2(24) == 0x100_0000 && Pow2(28) == 0x1000_0000;
  }

  lemma {:induction false} OrBound(x: nat, y: nat, n: nat)
    requires x < Pow2(n) && y < Pow2(n)
    ensures Or(x, y) < Pow2(n)
    decreases n
  {
    if x > 0 && y > 0 {
      OrBound(x / 2, y / 2, n - 1);
    }
  }

  lemma {:induction false} Pow2Grows(k: nat, n: nat)
    requires k <= n
    ensures Pow2(k) <= Pow2(n)
    decreases n
  {
    if k < n {
      Pow2Grows(k, n - 1);
    }
  }

  lemma Scaled(d: int, m: int)
    requires m > 0
    ensures d > 0 ==> d * m >= m
    ensures d < 0 ==> d * m <= -m
  {
  }

  lemma ModUnique(x: nat, m: nat, q: nat, r: nat)
    requires r < m && x == q * m + r
    ensures x % m == r
  {
    var d := x / m - q;
    assert x == (x / m) * m + x % m;
    assert d * m == r - x % m;
    Scaled(d, m);
  }

  /** (x / 2) % p is what remains of x above its lowest bit, below 2p. */
  lemma HalfMod(x: nat, p: nat)
    requires p > 0
    ensures x % (2 * p) == 2 * (x / 2 % p) + x % 2
  {
    var q, r := x / 2 / p, x / 2 % p;
    assert x == 2 * (q * p + r) + x % 2;
    assert 2 * (q * p) == q * (2 * p);
    ModUnique(x, 2 * p, q, 2 * r + x % 2);
  }

  lemma AndStep(x: nat, y: nat)
    ensures And(x, y) == 2 * And(x / 2, y / 2) + (if y % 2 == 1 then x % 2 else 0)
    ensures And(x, 0) == 0
  {
  }

  /** `x` down to a multiple of `p`. */
  function Floor(x: nat, p: nat): (r: nat)
    requires p > 0
    ensures r <= x
  {
    x - x % p
  }

  lemma AndDoubled(x: nat, m: nat, p: nat)
    requires p > 0 && And(x / 2, m) == Floor(x / 2, p)
    ensures And(x, 2 * m) == Floor(x, 2 * p)
  {
    hide And;
    HalfMod(x, p);
    AndStep(x, 2 * m);
  }

  lemma Pow2Step(n: nat)
    ensures Pow2(n + 1) == 2 * Pow2(n) && Pow2(0) == 1
  {
  }

  lemma AndAll(x: nat, m: nat, p: nat)
    requires p > 0 && m == 2 * (p - 1) + 1 && And(x / 2, p - 1) == x / 2
    ensures And(x, m) == x
  {
    hide And;
    AndStep(x, m);
  }

  lemma FloorOfOne(x: nat)
    ensures Floor(x, 1) == x
  {
  }

  lemma FloorOfSmall(x: nat, p: nat)
    requires x < p
    ensures Floor(x, p) == 0
  {
  }

  /** A mask of ones from bit k up to bit n clears the low k bits. */
  lemma {:induction false} AndMask(x: nat, n: nat, k: nat)
    requires k <= n && x < Pow2(n)
    ensures Pow2(k) <= Pow2(n) && And(x, Pow2(n) - Pow2(k)) == Floor(x, Pow2(k))
    decreases n
  {
    hide And, Pow2, Floor;
    Pow2Grows(k, n);
    if k == n {
      FloorOfSmall(x, Pow2(n));
      AndStep(x, 0);
    } else {
      Pow2Step(n - 1);
      Pow2Grows(k, n - 1);
      if k > 0 {
        Pow2Step(k - 1);
        AndMask(x / 2, n - 1, k - 1);
        AndDoubled(x, Pow2(n - 1) - Pow2(k - 1), Pow2(k - 1));
      } else {
        Pow2Step(0);
        AndMask(x / 2, n - 1, 0);
        FloorOfOne(x);
        FloorOfOne(x / 2);
        AndAll(x, Pow2(n) - 1, Pow2(n - 1));
      }
    }
  }

  lemma OrZero(x: nat)
    ensures Or(x, 0) == x
  {
  }

  lemma OrOdd(x: nat, y: nat)
    requires y % 2 == 1
    ensures Or(x, y) == 2 * Or(x / 2, y / 2) + 1
  {
  }

  /** Setting the low k bits. */
  lemma {:induction false} OrOnes(x: nat, k: nat)
    ensures Or(x, Pow2(k) - 1) == x - x % Pow2(k) + Pow2(k) - 1
    decreases k
  {
    hide Or;
    OrZero(x);
    if k > 0 {
      var p, y := Pow2(k - 1), Pow2(k) - 1;
      OrOnes(x / 2, k - 1);
      HalfMod(x, p);
      assert y == 2 * (p - 1) + 1;
      OrOdd(x, y);
      assert Pow2(k) == 2 * p;
    }
  }
}
