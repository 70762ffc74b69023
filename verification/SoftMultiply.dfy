/** Single-precision multiplication from three partial products: the fourth, and some low bits, are dropped. */
module SoftMultiply {
  import opened Words
  import opened Bits
  import opened Binary32

  // ---------------------------------------------------------------- what the code computes

  /** The product of the significands over 2^18, from its 16x16 and two 16x8 parts. */
  function Partial(m: nat, n: nat): nat {
    Parts(m / 256, m % 256, n / 256, n % 256)
  }

  function Parts(h: nat, l: nat, g: nat, k: nat): nat { h * g + l * g / 256 + k * h / 256 }

  function Guarded(a: nat, b: nat): nat { Partial(Mant(a), Mant(b)) / 4 }

  /** Rounded to 24 bits, or to 2^24 exactly. */
  function Rounded(c: nat): nat { if c < 0x2000_0000 then (c + 0x10) / 32 else (c + 0x20) / 64 }

  function ProductExp(a: nat, b: nat): int {
    Exp(a) + Exp(b) - EXCESS - (if Guarded(a, b) < 0x2000_0000 then 1 else 0)
    + if Rounded(Guarded(a, b)) == 2 * HIDDEN then 1 else 0
  }

  function ProductMant(a: nat, b: nat): nat {
    var r := Rounded(Guarded(a, b));
    if r == 2 * HIDDEN then HIDDEN else r
  }

  function MulWord(a: nat, b: nat): nat {
    if a == 0 || b == 0 then 0
    else Pack(Xor(Sign(a), Sign(b)), ProductExp(a, b), ProductMant(a, b) % HIDDEN)
  }

  /** What dropping the low product and the low bits costs: less than one and a half counts. */
  lemma DroppedBits(m: nat, n: nat)
    requires HIDDEN <= m < 2 * HIDDEN && HIDDEN <= n < 2 * HIDDEN
    ensures var c := Partial(m, n) / 4;
      0x1000_0000 <= c < 0x4000_0000 && 0 <= 2 * (m * n - c * 0x4_0000) < 3 * 0x4_0000
      && Partial(m, n) < WORD
  {
    PartsOf(m / 256, m % 256, n / 256, n % 256, m, n);
  }

  lemma PartsOf(h: nat, l: nat, g: nat, k: nat, m: nat, n: nat)
    requires m == 256 * h + l && n == 256 * g + k && l < 256 && k < 256
    requires HIDDEN <= m < 2 * HIDDEN && HIDDEN <= n < 2 * HIDDEN
    ensures var c := Parts(h, l, g, k) / 4;
      0x1000_0000 <= c < 0x4000_0000 && 0 <= 2 * (m * n - c * 0x4_0000) < 3 * 0x4_0000
      && Parts(h, l, g, k) < WORD
  {
    Expand(h, l, g, k);
    Corner(l, k);
    Corners(h, g);
    Largest(m, n);
    Collect(m * n, h * g, l * g, k * h, l * k, Parts(h, l, g, k));
  }

  lemma Collect(p: nat, hg: nat, lg: nat, kh: nat, lk: nat, sum: nat)
    requires p == 65536 * hg + 256 * lg + 256 * kh + lk && sum == hg + lg / 256 + kh / 256
    requires hg >= 0x4000_0000 && p < 0x1_0000_0000_0000 && lk <= 255 * 255
    ensures 0x1000_0000 <= sum / 4 < 0x4000_0000 && 0 <= 2 * (p - sum / 4 * 0x4_0000) < 3 * 0x4_0000 && sum < WORD
  {
  }

  lemma Expand(h: nat, l: nat, g: nat, k: nat)
    ensures (256 * h + l) * (256 * g + k) == 65536 * (h * g) + 256 * (l * g) + 256 * (k * h) + l * k
  {
  }

  lemma Corner(l: nat, k: nat)
    requires l < 256 && k < 256
    ensures l * k <= 255 * 255
  {
  }

  lemma Corners(h: nat, g: nat)
    requires 0x8000 <= h && 0x8000 <= g
    ensures h * g >= 0x4000_0000
  {
  }

  lemma Largest(m: nat, n: nat)
    requires m < 2 * HIDDEN && n < 2 * HIDDEN
    ensures m * n < 0x1_0000_0000_0000
  {
    assert m * n <= m * 0x100_0000;
  }

  /** The product is in place after rounding, within 17/32 of a unit. */
  lemma RoundedNear(p: nat, c: nat, r: nat, j: nat)
    requires 0x1000_0000 <= c < 0x4000_0000 && 0 <= 2 * (p - c * 0x4_0000) < 3 * 0x4_0000
    requires r == Rounded(c) && j == if c < 0x2000_0000 then 23 else 24
    ensures HIDDEN <= r <= 2 * HIDDEN
    ensures r < 2 * HIDDEN ==> NearInt(r, p, j)
    ensures r == 2 * HIDDEN ==> NearInt(HIDDEN, p, j + 1)
  {
    Powers();
    assert Pow2(25) == 0x200_0000;
  }

  lemma ProductIsNear(a: nat, b: nat)
    ensures HIDDEN <= ProductMant(a, b) < 2 * HIDDEN
    ensures Near(ProductMant(a, b), ProductExp(a, b), Times((Mant(a) * Mant(b)) as real, PowR(Exp(a) + Exp(b) - 300)))
  {
    var c, p := Guarded(a, b), Mant(a) * Mant(b);
    var j := if c < 0x2000_0000 then 23 else 24;
    DroppedBits(Mant(a), Mant(b));
    RoundedNear(p, c, Rounded(c), j);
    assert p * Pow2(0) == p;
    NearScaled(ProductMant(a, b), ProductExp(a, b), Times(p as real, PowR(Exp(a) + Exp(b) - 300)), p, 0,
               if Rounded(c) == 2 * HIDDEN then j + 1 else j, Exp(a) + Exp(b) - 300);
  }

  lemma ExactProduct(a: nat, b: nat)
    requires Normal(a) && Normal(b)
    ensures Times(Value(a), Value(b))
         == Signed(Xor(Sign(a), Sign(b)), Times((Mant(a) * Mant(b)) as real, PowR(Exp(a) + Exp(b) - 300)))
  {
    PowRAdds(Exp(a) - 150, Exp(b) - 150);
    Regroup(Mant(a), Mant(b), Ulp(a), Ulp(b), PowR(Exp(a) + Exp(b) - 300));
    SignedProduct(Sign(a), Sign(b), Magnitude(a), Magnitude(b));
  }

  lemma Regroup(m: nat, n: nat, x: real, y: real, z: real)
    requires z == Times(x, y)
    ensures Times(Times(m as real, x), Times(n as real, y)) == Times((m * n) as real, z)
  {
    assert (m * n) as real == m as real * n as real;
  }

  lemma SignedProduct(s: nat, t: nat, x: real, y: real)
    requires (s == 0 || s == SIGNBIT) && (t == 0 || t == SIGNBIT)
    ensures Times(Signed(s, x), Signed(t, y)) == Signed(Xor(s, t), Times(x, y))
  {
  }

  /** Where the exact product is a normal magnitude, the code is within 17/32 of a unit of it, in either order
      the same. */
  lemma MulIsAccurate(a: nat, b: nat)
    requires Normal(a) && Normal(b)
    ensures NormalMagnitude(AbsR(Value(a) * Value(b))) ==> Accurate(MulWord(a, b), Value(a) * Value(b))
    ensures MulWord(a, b) == MulWord(b, a)
  {
    MulCommutes(a, b);
    ExactProduct(a, b);
    ProductIsNear(a, b);
    NotNegative(Mant(a), Mant(b), PowR(Exp(a) + Exp(b) - 300));
    NotZero(a);
    NotZero(b);
    MulWordIs(a, b);
    if NormalMagnitude(AbsR(Value(a) * Value(b))) {
      NearWord(MulWord(a, b), Xor(Sign(a), Sign(b)), ProductExp(a, b), ProductMant(a, b),
               Times((Mant(a) * Mant(b)) as real, PowR(Exp(a) + Exp(b) - 300)), Value(a) * Value(b));
    }
  }

  lemma MulWordIs(a: nat, b: nat)
    requires a != 0 && b != 0
    ensures MulWord(a, b) == Pack(Xor(Sign(a), Sign(b)), ProductExp(a, b), ProductMant(a, b) % HIDDEN)
  {
  }

  lemma NearWord(w: nat, s: nat, e: int, m: nat, q: real, v: real)
    requires s == 0 || s == SIGNBIT
    requires w == Pack(s, e, m % HIDDEN) && q >= 0.0 && v == Signed(s, q) && NormalMagnitude(AbsR(v))
    requires HIDDEN <= m < 2 * HIDDEN && Near(m, e, q)
    ensures Accurate(w, v)
  {
    NearIsAccurate(s, e, m, q);
  }

  lemma NotNegative(m: nat, n: nat, x: real)
    requires x > 0.0
    ensures Times((m * n) as real, x) >= 0.0
  {
  }

  lemma MulCommutes(a: nat, b: nat)
    ensures MulWord(a, b) == MulWord(b, a)
  {
    GuardedCommutes(a, b);
    SameWord(a, b);
  }

  lemma GuardedCommutes(a: nat, b: nat)
    ensures Guarded(a, b) == Guarded(b, a)
  {
    PartsCommute(Mant(a) / 256, Mant(a) % 256, Mant(b) / 256, Mant(b) % 256);
  }

  lemma SameWord(a: nat, b: nat)
    requires Guarded(a, b) == Guarded(b, a)
    ensures MulWord(a, b) == MulWord(b, a)
  {
    assert ProductExp(a, b) == ProductExp(b, a) && ProductMant(a, b) == ProductMant(b, a);
  }

  lemma PartsCommute(h: nat, l: nat, g: nat, k: nat)
    ensures Parts(h, l, g, k) == Parts(g, k, h, l)
  {
    assert h * g == g * h;
  }

  // ---------------------------------------------------------------- the code

  method MulSf3(a: nat, b: nat) returns (r: nat)
    requires a < WORD && b < WORD
    ensures r == MulWord(a, b)
  {
    if a == 0 || b == 0 { return 0; }
    var sign := Xor(Sign(a), Sign(b));
    var exp := Exp(a) - EXCESS;
    exp := exp + Exp(b);
    var m1, m2 := Mant(a), Mant(b);
    var result := PartialProducts(m1, m2);
    result := result / 4;
    r := RoundAndPack(result, exp, sign);
  }

  /** The tail of the function: round to 24 bits, or to 2^24 exactly, and pack. */
  method RoundAndPack(c: nat, e: int, sign: nat) returns (r: nat)
    requires 0x1000_0000 <= c < 0x4000_0000
    ensures var m := Rounded(c);
      r == Pack(sign, e - (if c < 0x2000_0000 then 1 else 0) + (if m == 2 * HIDDEN then 1 else 0),
                (if m == 2 * HIDDEN then HIDDEN else m) % HIDDEN)
  {
    var result, exp := c, e;
    TestBit29(result);
    RoundedBits(result);
    if And(result, 0x2000_0000) != 0 {
      result := result + 0x20;
      result := result / 64;
    } else {
      result := result + 0x10;
      result := result / 32;
      exp := exp - 1;
    }
    TestBit24(result);
    if And(result, 2 * HIDDEN) != 0 {
      result := result / 2;
      exp := exp + 1;
    }
    ClearHidden(result);
    result := And(result, NOT_HIDDEN);
    r := Pack(sign, exp, result);
  }

  /** Three products. The first is one of two int32_t and can exceed their range, which C leaves undefined; taken
      modulo 2^32, as the processor multiplies, it is the same once it is unsigned. None of the sums leaves 32 bits. */
  method PartialProducts(m1: nat, m2: nat) returns (result: nat)
    requires HIDDEN <= m1 < 2 * HIDDEN && HIDDEN <= m2 < 2 * HIDDEN
    ensures result == Partial(m1, m2) < WORD && 0x1000_0000 <= result / 4 < 0x4000_0000
  {
    DroppedBits(m1, m2);
    LowBytes(m1, m2);
    result := SumOfParts(m1 / 256, And(m1, 0xFF), m2 / 256, And(m2, 0xFF));
  }

  method SumOfParts(h: nat, l: nat, g: nat, k: nat) returns (result: nat)
    ensures result == Parts(h, l, g, k)
  {
    result := h * g;
    result := result + l * g / 256;
    result := result + k * h / 256;
  }

  lemma RoundedBits(c: nat)
    requires 0x1000_0000 <= c < 0x4000_0000
    ensures HIDDEN <= Rounded(c) <= 2 * HIDDEN
  {
  }

  lemma LowBytes(m: nat, n: nat)
    ensures And(m, 0xFF) == m % 256 && And(n, 0xFF) == n % 256
  {
    Powers();
    AndLowMask(m, 8);
    AndLowMask(n, 8);
  }

  lemma TestBit29(c: nat)
    requires c < 0x4000_0000
    ensures And(c, 0x2000_0000) != 0 <==> c >= 0x2000_0000
  {
    Bit29();
    TestTopBit(c, 29, 0x2000_0000);
  }

  lemma Bit29()
    ensures Pow2(29) == 0x2000_0000
  {
    assert Pow2(5) == 32;
    Powers();
    Pow2Adds(24, 5);
  }

  lemma TestBit24(c: nat)
    requires c <= 2 * HIDDEN
    ensures And(c, 2 * HIDDEN) != 0 <==> c == 2 * HIDDEN
  {
    Powers();
    TestTopBit(c, 24, 2 * HIDDEN);
  }
}
