/** Bitwise operations on naturals, and what they are in arithmetic when masks and fields line up. */
module Bits {

  function Pow2(k: nat): (p: nat)
    ensures 1 <= p
  {
    if k == 0 then 1 else 2 * Pow2(k - 1)
  }

  function And(a: nat, b: nat): nat {
    if a == 0 || b == 0 then 0 else 2 * And(a / 2, b / 2) + if a % 2 == 1 && b % 2 == 1 then 1 else 0
  }

  function Or(a: nat, b: nat): nat {
    if a == 0 then b else if b == 0 then a
    else 2 * Or(a / 2, b / 2) + if a % 2 == 1 || b % 2 == 1 then 1 else 0
  }

  function Bit(a: nat, k: nat): bool {
    if k == 0 then a % 2 == 1 else Bit(a / 2, k - 1)
  }

  /** `And` and `Or` work bit by bit. */
  lemma BitByBit(a: nat, b: nat, k: nat)
    ensures Bit(And(a, b), k) <==> Bit(a, k) && Bit(b, k)
    ensures Bit(Or(a, b), k) <==> Bit(a, k) || Bit(b, k)
  {
    BitOfAnd(a, b, k);
    BitOfOr(a, b, k);
  }

  lemma {:induction false} BitOfAnd(a: nat, b: nat, k: nat)
    ensures Bit(And(a, b), k) <==> Bit(a, k) && Bit(b, k)
  {
    ZeroHasNoBits(k);
    if a != 0 && b != 0 && k != 0 {
      BitOfAnd(a / 2, b / 2, k - 1);
      Doubled(And(a / 2, b / 2), And(a, b));
    }
  }

  lemma {:induction false} BitOfOr(a: nat, b: nat, k: nat)
    ensures Bit(Or(a, b), k) <==> Bit(a, k) || Bit(b, k)
  {
    ZeroHasNoBits(k);
    if a != 0 && b != 0 && k != 0 {
      BitOfOr(a / 2, b / 2, k - 1);
      Doubled(Or(a / 2, b / 2), Or(a, b));
    }
  }

  lemma Doubled(h: nat, x: nat)
    ensures x == 2 * h || x == 2 * h + 1 ==> x / 2 == h
  {
  }

  lemma {:induction false} ZeroHasNoBits(k: nat)
    ensures !Bit(0, k)
  {
    if k > 0 { ZeroHasNoBits(k - 1); }
  }

  /** Sum, intersection and union. */
  lemma {:induction false} OrPlusAnd(a: nat, b: nat)
    ensures Or(a, b) + And(a, b) == a + b
  {
    if a != 0 && b != 0 { OrPlusAnd(a / 2, b / 2); }
  }

  lemma {:induction false} AndSymmetric(a: nat, b: nat)
    ensures And(a, b) == And(b, a)
  {
    if a != 0 && b != 0 { AndSymmetric(a / 2, b / 2); }
  }

  lemma Halve(a: nat, p: nat)
    requires 1 <= p
    ensures a / (2 * p) == a / 2 / p && a % (2 * p) == 2 * (a / 2 % p) + a % 2
  {
    var q, r := a / 2 / p, 2 * (a / 2 % p) + a % 2;
    assert a / 2 == p * q + a / 2 % p;
    assert p * (2 * q) == 2 * (p * q);
    assert a == (2 * p) * q + r && 0 <= r < 2 * p;
    Divided(a, 2 * p, q, r);
  }

  lemma Divided(a: int, p: nat, q: int, r: nat)
    requires a == p * q + r && r < p
    ensures a / p == q && a % p == r
  {
    var d := a / p - q;
    assert p * d == r - a % p by {
      assert p * (a / p) + a % p == a;
      assert p * d == p * (a / p) - p * q;
    }
    SmallMultiple(p, d);
  }

  lemma SmallMultiple(p: int, d: int)
    requires 1 <= p && -p < p * d < p
    ensures d == 0
  {
    assert d >= 1 ==> p * d >= p;
    assert d <= -1 ==> p * d <= -p;
  }

  /** Keeping the low `k` bits. */
  lemma AndLowMask(a: nat, k: nat)
    ensures And(a, Pow2(k) - 1) == a % Pow2(k)
  {
    AndOnes(a, k, Pow2(k) - 1, Pow2(k));
  }

  lemma {:induction false} AndOnes(a: nat, k: nat, m: nat, p: nat)
    requires p == Pow2(k) && m == p - 1
    ensures And(a, m) == a % p
    decreases k
  {
    if k == 0 {
      Divided(a, 1, a, 0);
    } else {
      var q := Pow2(k - 1);
      HalveBy(a, q, p);
      AndOnes(a / 2, k - 1, q - 1, q);
      AndOdd(a, m, q - 1);
    }
  }

  lemma HalveBy(a: nat, p: nat, q: nat)
    requires 1 <= p && q == 2 * p
    ensures a / q == a / 2 / p && a % q == 2 * (a / 2 % p) + a % 2
  {
    Halve(a, p);
  }

  lemma AndOdd(a: nat, m: nat, h: nat)
    requires m == 2 * h + 1
    ensures And(a, m) == 2 * And(a / 2, h) + a % 2
  {
    assert m / 2 == h && m % 2 == 1;
  }

  /** Testing bit `k`. */
  lemma {:induction false} AndBit(a: nat, k: nat)
    ensures And(a, Pow2(k)) == if a / Pow2(k) % 2 == 1 then Pow2(k) else 0
  {
    if k > 0 {
      Halve(a, Pow2(k - 1));
      AndBit(a / 2, k - 1);
      assert Pow2(k) / 2 == Pow2(k - 1);
    } else if a != 0 {
      assert And(a / 2, 0) == 0;
    }
  }

  /** Clearing the low `k` bits of an `n`-bit number. */
  lemma AndHighMask(a: nat, k: nat, n: nat)
    requires k <= n && a < Pow2(n)
    ensures Pow2(k) <= Pow2(n) && And(a, Pow2(n) - Pow2(k)) == a - a % Pow2(k)
  {
    Pow2Rises(k, n);
    AndHighOnes(a, k, n, Pow2(n) - Pow2(k), Pow2(k), Pow2(n));
  }

  lemma {:induction false} Pow2Rises(k: nat, n: nat)
    requires k <= n
    ensures Pow2(k) <= Pow2(n)
    decreases n
  {
    if k < n { Pow2Rises(k, n - 1); }
  }

  lemma {:induction false} AndHighOnes(a: nat, k: nat, n: nat, m: nat, p: nat, w: nat)
    requires k <= n && a < w && w == Pow2(n) && p == Pow2(k) && m == w - p
    ensures And(a, m) == a - a % p
    decreases k
  {
    if k == 0 {
      AndOnes(a, n, m, w);
      Divided(a, w, 0, a);
      Divided(a, 1, a, 0);
    } else {
      var q, v := Pow2(k - 1), Pow2(n - 1);
      HalveBy(a, q, p);
      Pow2Rises(k - 1, n - 1);
      AndHighOnes(a / 2, k - 1, n - 1, v - q, q, v);
      AndEven(a, m, v - q);
    }
  }

  lemma AndEven(a: nat, m: nat, h: nat)
    requires m == 2 * h
    ensures And(a, m) == 2 * And(a / 2, h)
  {
    assert m / 2 == h && m % 2 == 0;
  }

  /** Fields that do not overlap. */
  lemma {:induction false} AndDisjoint(a: nat, b: nat, k: nat)
    requires a % Pow2(k) == 0 && b < Pow2(k)
    ensures And(a, b) == 0
  {
    if k > 0 {
      Halve(a, Pow2(k - 1));
      AndDisjoint(a / 2, b / 2, k - 1);
    }
  }

  lemma OrDisjoint(a: nat, b: nat, k: nat)
    requires a % Pow2(k) == 0 && b < Pow2(k)
    ensures Or(a, b) == a + b
  {
    AndDisjoint(a, b, k);
    OrPlusAnd(a, b);
  }

  /** High bits do not matter to a narrow operand. */
  lemma {:induction false} AndNarrow(a: nat, b: nat, k: nat)
    requires b < Pow2(k)
    ensures And(a, b) == And(a % Pow2(k), b)
  {
    if k > 0 {
      Halve(a, Pow2(k - 1));
      AndNarrow(a / 2, b / 2, k - 1);
      assert a % Pow2(k) / 2 == a / 2 % Pow2(k - 1);
    }
  }

  lemma {:induction false} Pow2Adds(a: nat, b: nat)
    ensures Pow2(a + b) == Pow2(a) * Pow2(b)
  {
    if a > 0 { Pow2Adds(a - 1, b); }
  }

  /** Testing the top bit of a narrow number. */
  lemma TestTopBit(c: nat, k: nat, p: nat)
    requires p == Pow2(k) && c < 2 * p
    ensures And(c, p) != 0 <==> c >= p
  {
    AndBit(c, k);
    Divided(c, p, if c < p then 0 else 1, if c < p then c else c - p);
  }

  /** Testing all bits from `k` up. */
  lemma TestHighBits(a: nat, k: nat, n: nat, p: nat, mask: int)
    requires k <= n && a < Pow2(n) && p == Pow2(k) && mask == Pow2(n) - p && 0 <= mask
    ensures And(a, mask) == 0 <==> a < p
  {
    AndHighMask(a, k, n);
    Remainder(a, p);
  }

  lemma Remainder(a: nat, p: nat)
    requires 1 <= p
    ensures a - a % p == 0 <==> a < p
  {
    if a < p { Divided(a, p, 0, a); }
  }

  // ---------------------------------------------------------------- products step by step

  /** The product as a repeated sum: for proofs in which multiplying out would only get in the way. */
  function Product(x: nat, y: nat): nat
    decreases y, x
  {
    if y == 0 then 0 else x + Product(x, y - 1)
  }

  lemma {:induction false} ProductIs(x: nat, y: nat)
    ensures Product(x, y) == x * y
    decreases y
  {
    if y > 0 {
      ProductIs(x, y - 1);
      OneMoreTime(x, y);
    }
  }

  lemma OneMoreTime(x: nat, y: nat)
    requires y > 0
    ensures x * y == x + x * (y - 1)
  {
  }
}
