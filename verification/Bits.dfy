/** The bit operations of C on non-negative numbers of `n` bits. */
module Bits {
  function Pow2(n: nat): (p: nat)
    ensures p > 0
  {
    if n == 0 then 1 else 2 * Pow2(n - 1)
  }

  function And(x: nat, y: nat, n: nat): (r: nat)
    ensures r < Pow2(n)
  {
    if n == 0 then 0 else 2 * And(x / 2, y / 2, n - 1) + if x % 2 == 1 && y % 2 == 1 then 1 else 0
  }

  function Or(x: nat, y: nat, n: nat): (r: nat)
    ensures r < Pow2(n)
  {
    if n == 0 then 0 else 2 * Or(x / 2, y / 2, n - 1) + if x % 2 == 1 || y % 2 == 1 then 1 else 0
  }

  function Xor(x: nat, y: nat, n: nat): (r: nat)
    ensures r < Pow2(n)
  {
    if n == 0 then 0 else 2 * Xor(x / 2, y / 2, n - 1) + if x % 2 != y % 2 then 1 else 0
  }

  lemma Doubled(a: nat, b: nat)
    requires b < 2
    ensures (2 * a + b) / 2 == a && (2 * a + b) % 2 == b
  {
  }

  /** The exclusive or with one number is its own inverse. */
  lemma {:induction false} XorTwice(x: nat, y: nat, n: nat)
    requires x < Pow2(n)
    ensures Xor(Xor(x, y, n), y, n) == x
  {
    if n > 0 {
      var r, b := Xor(x / 2, y / 2, n - 1), if x % 2 != y % 2 then 1 else 0;
      XorTwice(x / 2, y / 2, n - 1);
      Doubled(r, b);
      XorStep(2 * r + b, y, n);
    }
  }

  lemma XorStep(x: nat, y: nat, n: nat)
    requires n > 0
    ensures Xor(x, y, n) == 2 * Xor(x / 2, y / 2, n - 1) + if x % 2 != y % 2 then 1 else 0
  {
  }

  /** The mask of one bit tells whether the top bit is set. */
  lemma {:induction false} AndTopBit(x: nat, n: nat)
    requires x < Pow2(n + 1)
    ensures And(x, Pow2(n), n + 1) == if x >= Pow2(n) then Pow2(n) else 0
  {
    if n > 0 {
      AndTopBit(x / 2, n - 1);
    }
  }

  /** The top bit is added to a number without it. */
  lemma {:induction false} OrTopBit(y: nat, n: nat)
    requires y < Pow2(n)
    ensures Or(Pow2(n), y, n + 1) == Pow2(n) + y
  {
    if n > 0 {
      OrTopBit(y / 2, n - 1);
    } else {
      assert Or(1, 0, 1) == 1;
    }
  }

  lemma {:induction false} NoBits(x: nat, n: nat)
    ensures And(x, 0, n) == 0
  {
    if n > 0 {
      NoBits(x / 2, n - 1);
    }
  }

  lemma AtLeastOnce(k: nat, m: nat)
    requires k > 0
    ensures k * m >= m
  {
    assert k * m == (k - 1) * m + m;
  }

  /** Division with remainder has one result. */
  lemma ModUnique(x: nat, m: nat, q: nat, r: nat)
    requires x == q * m + r && r < m
    ensures x % m == r
  {
    var d, e := x / m, x % m;
    assert x == d * m + e;
    if d < q {
      assert (q - d) * m == q * m - d * m;
      AtLeastOnce(q - d, m);
    } else if q < d {
      assert (d - q) * m == d * m - q * m;
      AtLeastOnce(d - q, m);
    }
  }

  lemma ModOfDouble(x: nat, p: nat)
    requires p > 0
    ensures x % (2 * p) == 2 * ((x / 2) % p) + x % 2
  {
    var h := x / 2;
    var q, r := h / p, h % p;
    assert h == q * p + r;
    assert x == 2 * (q * p + r) + x % 2 == q * (2 * p) + (2 * r + x % 2);
    ModUnique(x, 2 * p, q, 2 * r + x % 2);
  }

  /** A mask of low bits leaves the remainder. */
  lemma {:induction false} AndLowBits(x: nat, k: nat, n: nat)
    requires k <= n
    ensures And(x, Pow2(k) - 1, n) == x % Pow2(k)
  {
    if k == 0 {
      NoBits(x, n);
    } else {
      AndLowBits(x / 2, k - 1, n - 1);
      ModOfDouble(x, Pow2(k - 1));
    }
  }

  /** Bit `i` of a number, counted from the lowest one. */
  function Bit(x: nat, i: nat): nat {
    x / Pow2(i) % 2
  }

  lemma {:induction false} BitOfHalf(x: nat, i: nat)
    ensures Bit(x, i + 1) == Bit(x / 2, i)
  {
    HalfThenDivide(x, Pow2(i));
  }

  lemma HalfThenDivide(x: nat, p: nat)
    requires p > 0
    ensures x / (2 * p) == (x / 2) / p
  {
    var q := (x / 2) / p;
    var r := (x / 2) % p;
    assert x / 2 == q * p + r;
    assert x == 2 * (q * p) + (2 * r + x % 2);
    assert 2 * (q * p) == q * (2 * p);
    Quotient(x, q, 2 * p, 2 * r + x % 2);
  }

  lemma Quotient(x: nat, q: nat, d: nat, r: nat)
    requires d > 0 && x == q * d + r && r < d
    ensures x / d == q
  {
    assert (x / d - q) * d == r - x % d;
    SmallMultiple(x / d - q, d);
  }

  lemma SmallMultiple(k: int, d: nat)
    requires -(d as int) < k * d < d
    ensures k == 0
  {
  }

  /** The operations work on each bit by itself. */
  lemma {:induction false} AndBit(x: nat, y: nat, n: nat, i: nat)
    requires i < n
    ensures Bit(And(x, y, n), i) == if Bit(x, i) == 1 && Bit(y, i) == 1 then 1 else 0
    decreases i
  {
    var a, b := And(x / 2, y / 2, n - 1), if x % 2 == 1 && y % 2 == 1 then 1 else 0;
    if i == 0 {
      Doubled(a, b);
      assert Pow2(0) == 1;
    } else {
      AndBit(x / 2, y / 2, n - 1, i - 1);
      BitOfHalf(x, i - 1);
      BitOfHalf(y, i - 1);
      BitsOfMore(a, b, i);
    }
  }

  lemma {:induction false} OrBit(x: nat, y: nat, n: nat, i: nat)
    requires i < n
    ensures Bit(Or(x, y, n), i) == if Bit(x, i) == 1 || Bit(y, i) == 1 then 1 else 0
    decreases i
  {
    var a, b := Or(x / 2, y / 2, n - 1), if x % 2 == 1 || y % 2 == 1 then 1 else 0;
    if i == 0 {
      Doubled(a, b);
      assert Pow2(0) == 1;
    } else {
      OrBit(x / 2, y / 2, n - 1, i - 1);
      BitOfHalf(x, i - 1);
      BitOfHalf(y, i - 1);
      BitsOfMore(a, b, i);
    }
  }

  lemma {:induction false} XorBit(x: nat, y: nat, n: nat, i: nat)
    requires i < n
    ensures Bit(Xor(x, y, n), i) == if Bit(x, i) != Bit(y, i) then 1 else 0
    decreases i
  {
    var a, b := Xor(x / 2, y / 2, n - 1), if x % 2 != y % 2 then 1 else 0;
    if i == 0 {
      Doubled(a, b);
      assert Pow2(0) == 1;
    } else {
      XorBit(x / 2, y / 2, n - 1, i - 1);
      BitOfHalf(x, i - 1);
      BitOfHalf(y, i - 1);
      BitsOfMore(a, b, i);
    }
  }

  lemma {:induction false} BitsOfMore(a: nat, b: nat, i: nat)
    requires b < 2 && i > 0
    ensures Bit(2 * a + b, i) == Bit(a, i - 1)
  {
    Doubled(a, b);
    BitOfHalf(2 * a + b, i - 1);
  }
}
