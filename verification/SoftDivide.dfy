/** Single-precision division by repeated subtraction: correctly rounded where the quotient is in the normal range. */
module SoftDivide {
  import opened Words
  import opened Bits
  import opened Binary32

  // ---------------------------------------------------------------- what the code computes

  /** The numerator's significand, doubled when it is the smaller one. */
  function Numerator(a: nat, b: nat): (m: nat)
    ensures Mant(b) <= m < 2 * Mant(b)
  {
    if Mant(a) < Mant(b) then 2 * Mant(a) else Mant(a)
  }

  function QuotientExp(a: nat, b: nat): int {
    Exp(a) - Exp(b) + EXCESS + if Mant(a) < Mant(b) then 0 else 1
  }

  function LongQuotient(n: nat, m: nat): nat
    requires 0 < m
  {
    n * 0x100_0000 / m
  }

  function QuotientMant(a: nat, b: nat): nat { RoundUp(LongQuotient(Numerator(a, b), Mant(b))) }

  function RoundUp(q: nat): nat { (q + 1) / 2 }

  /** The divisor +0 gives no NaN: the integer constants become the floats 2^31 and 2^32. */
  function DivWord(a: nat, b: nat): nat {
    if b == 0 then if Sign(a) == Sign(b) then 0x4F00_0000 else 0x4F80_0000
    else if a == 0 then 0
    else Pack(Xor(Sign(a), Sign(b)), QuotientExp(a, b), QuotientMant(a, b) % HIDDEN)
  }

  /** The quotient has 25 bits and its rounding never carries past the hidden bit. */
  lemma QuotientBits(a: nat, b: nat)
    ensures 2 * HIDDEN <= LongQuotient(Numerator(a, b), Mant(b)) <= 4 * HIDDEN - 2
    ensures HIDDEN <= QuotientMant(a, b) < 2 * HIDDEN
  {
    QuotientBetween(Numerator(a, b) * 0x100_0000, Mant(b), 0x100_0000, 0x1FF_FFFE);
  }

  lemma QuotientBetween(n: nat, m: nat, lo: nat, hi: nat)
    requires 0 < m && lo * m <= n < (hi + 1) * m
    ensures lo <= n / m <= hi
  {
    var q := n / m;
    assert n == m * q + n % m;
    if q < lo { Multiple(m, q + 1, lo); }
    if q > hi { Multiple(m, hi + 1, q); }
  }

  lemma Multiple(m: nat, x: nat, y: nat)
    requires x <= y
    ensures m * x <= y * m && x * m == m * x
  {
  }

  method DivSf3(a: nat, b: nat) returns (r: nat)
    requires a < WORD && b < WORD
    ensures r == DivWord(a, b)
  {
    var exp := Exp(a) - Exp(b) + EXCESS;
    var sign := Xor(Sign(a), Sign(b));
    if b == 0 {
      return if sign != 0 then 0x4F80_0000 else 0x4F00_0000;
    }
    if a == 0 { return 0; }
    var m1, m2 := Mant(a), Mant(b);
    if m1 < m2 {
      m1 := m1 * 2;
      exp := exp - 1;
    }
    var result := Subtractions(m1, m2);
    QuotientBits(a, b);
    r := RoundAndPack(result, exp, sign);
  }

  method RoundAndPack(q: nat, e: int, sign: nat) returns (r: nat)
    requires HIDDEN <= RoundUp(q) < 2 * HIDDEN
    ensures r == Pack(sign, e + 1, RoundUp(q) % HIDDEN)
  {
    var result, exp := q + 1, e + 1;
    result := result / 2;
    ClearHidden(result);
    result := And(result, NOT_HIDDEN);
    r := Pack(sign, exp, result);
  }

  /** The 25-step loop; `m1` stays below 2 * m2, so no step leaves 32 bits. */
  method Subtractions(n: nat, m2: nat) returns (result: nat)
    requires 0 < m2 < 0x100_0000 && n < 2 * m2
    ensures result == LongQuotient(n, m2)
  {
    var m1: nat := n;
    var mask: nat := 0x100_0000;
    result := 0;
    ghost var k: nat, q: nat, scaled: nat := 25, 0, n;
    Starts(n, m2);
    while mask != 0
      invariant Underway(n, m2, k, q, scaled, mask, result, m1)
      decreases mask
    {
      result, m1, q := OneBit(n, m2, k, q, scaled, mask, result, m1);
      mask := mask / 2;
      k, scaled := k - 1, 2 * scaled;
    }
    Finished(n, m2, k, q, scaled, mask, result, m1);
  }

  /** One turn of the loop, but for the shift of the mask. */
  method OneBit(ghost n: nat, m2: nat, ghost k: nat, ghost q: nat, ghost scaled: nat, mask: nat, result0: nat, r: nat)
      returns (result: nat, m1: nat, ghost q': nat)
    requires Underway(n, m2, k, q, scaled, mask, result0, r) && 0 < mask
    ensures k > 0 && Underway(n, m2, k - 1, q', 2 * scaled, mask / 2, result, m1)
  {
    result, m1 := result0, r;
    if m1 >= m2 {
      SetHolds(n, m2, k, q, scaled, mask, result, m1);
      result := Or(result, mask);
      m1 := m1 - m2;
      q' := 2 * q + 1;
    } else {
      ClearHolds(n, m2, k, q, scaled, mask, result, m1);
      q' := 2 * q;
    }
    m1 := m1 * 2;
  }

  lemma Starts(n: nat, m2: nat)
    requires n < 2 * m2
    ensures Underway(n, m2, 25, 0, n, 0x100_0000, 0, n)
  {
    Powers();
    assert Pow2(25) == 0x200_0000;
    ProductIs(0, Pow2(25));
    ProductIs(0, 2 * m2);
    ProductIs(n, Pow2(25));
  }

  /** `k` more bits to come: `q` is the quotient so far, `m1` twice the remainder of the scaled numerator. */
  ghost predicate Underway(n: nat, m2: nat, k: nat, q: nat, scaled: nat, mask: nat, result: nat, m1: nat) {
    && k <= 25 && mask == Pow2(k) / 2 && m1 < 2 * m2 && (k < 25 ==> m1 % 2 == 0)
    && Balanced(n, m2, Pow2(k), q, scaled, result, m1)
  }

  ghost predicate Balanced(n: nat, m2: nat, p: nat, q: nat, scaled: nat, result: nat, m1: nat) {
    result == Product(q, p) && scaled == Product(q, 2 * m2) + m1 && Product(scaled, p) == n * 0x200_0000
  }

  lemma SetHolds(n: nat, m2: nat, k: nat, q: nat, scaled: nat, mask: nat, result: nat, m1: nat)
    requires Underway(n, m2, k, q, scaled, mask, result, m1) && 0 < mask && m1 >= m2
    ensures k > 0 && Underway(n, m2, k - 1, 2 * q + 1, 2 * scaled, mask / 2, Or(result, mask), (m1 - m2) * 2)
  {
    MoreToCome(k, mask);
    Even(m1 - m2);
    SetBit(n, m2, k, q, scaled, result, m1, mask);
    BitSet(n, m2, Pow2(k - 1), Pow2(k), q, scaled, result, m1, Or(result, mask));
  }

  lemma ClearHolds(n: nat, m2: nat, k: nat, q: nat, scaled: nat, mask: nat, result: nat, m1: nat)
    requires Underway(n, m2, k, q, scaled, mask, result, m1) && 0 < mask && m1 < m2
    ensures k > 0 && Underway(n, m2, k - 1, 2 * q, 2 * scaled, mask / 2, result, m1 * 2)
  {
    MoreToCome(k, mask);
    Even(m1);
    BitClear(n, m2, Pow2(k - 1), Pow2(k), q, scaled, result, m1);
  }

  lemma Even(x: nat)
    ensures x * 2 % 2 == 0
  {
  }

  lemma MoreToCome(k: nat, mask: nat)
    requires 0 < mask == Pow2(k) / 2
    ensures k > 0 && mask == Pow2(k - 1) && Pow2(k) == 2 * mask
  {
    assert k > 0;
  }

  lemma BitSet(n: nat, m2: nat, p: nat, p2: nat, q: nat, scaled: nat, result: nat, m1: nat, r: nat)
    requires r == result + p && p2 == 2 * p && Balanced(n, m2, p2, q, scaled, result, m1) && m1 >= m2
    ensures Balanced(n, m2, p, 2 * q + 1, 2 * scaled, r, (m1 - m2) * 2)
  {
    Multiplied(q, p, p2, 2 * m2, scaled);
    DoubleProduct(q, p);
    DoubleProduct(q, 2 * m2);
    DoubleProduct(scaled, p);
  }

  lemma BitClear(n: nat, m2: nat, p: nat, p2: nat, q: nat, scaled: nat, result: nat, m1: nat)
    requires p2 == 2 * p && Balanced(n, m2, p2, q, scaled, result, m1)
    ensures Balanced(n, m2, p, 2 * q, 2 * scaled, result, m1 * 2)
  {
    Multiplied(q, p, p2, 2 * m2, scaled);
    DoubleProduct(q, p);
    DoubleProduct(q, 2 * m2);
    DoubleProduct(scaled, p);
  }

  lemma SetBit(n: nat, m2: nat, k: nat, q: nat, scaled: nat, result: nat, m1: nat, mask: nat)
    requires Balanced(n, m2, Pow2(k), q, scaled, result, m1) && mask < Pow2(k)
    ensures Or(result, mask) == result + mask
  {
    ProductIs(q, Pow2(k));
    Commute(q, Pow2(k));
    Divided(result, Pow2(k), q, 0);
    OrDisjoint(result, mask, k);
  }

  lemma Commute(x: nat, y: nat)
    ensures x * y == y * x
  {
  }

  /** The products of `Balanced` before and after a step. */
  lemma Multiplied(q: nat, p: nat, p2: nat, m: nat, scaled: nat)
    ensures Product(q, p2) == q * p2 && Product(q, m) == q * m && Product(scaled, p2) == scaled * p2
    ensures Product(2 * q, p) == 2 * q * p && Product(2 * q + 1, p) == (2 * q + 1) * p
    ensures Product(2 * q, m) == 2 * q * m && Product(2 * q + 1, m) == (2 * q + 1) * m
    ensures Product(2 * scaled, p) == 2 * scaled * p
  {
    ProductIs(q, p2);
    ProductIs(q, m);
    ProductIs(scaled, p2);
    ProductIs(2 * q, p);
    ProductIs(2 * q + 1, p);
    ProductIs(2 * q, m);
    ProductIs(2 * q + 1, m);
    ProductIs(2 * scaled, p);
  }

  lemma DoubleProduct(q: nat, p: nat)
    ensures q * (2 * p) == 2 * q * p == 2 * (q * p)
    ensures (2 * q + 1) * p == 2 * (q * p) + p
  {
  }

  lemma Finished(n: nat, m2: nat, k: nat, q: nat, scaled: nat, mask: nat, result: nat, m1: nat)
    requires Underway(n, m2, k, q, scaled, mask, result, m1) && mask == 0
    ensures 0 < m2 && result == LongQuotient(n, m2)
  {
    assert k > 0 ==> Pow2(k) >= 2;
    assert Pow2(0) == 1;
    ProductIs(q, 1);
    ProductIs(q, 2 * m2);
    ProductIs(scaled, 1);
    AllDivided(n * 0x100_0000, m2, q, m1);
  }

  lemma AllDivided(n: nat, m2: nat, q: nat, m1: nat)
    requires m1 < 2 * m2 && m1 % 2 == 0 && 2 * n == q * (2 * m2) + m1
    ensures n / m2 == q
  {
    assert q * (2 * m2) == 2 * (m2 * q);
    Divided(n, m2, q, m1 / 2);
  }

  // ---------------------------------------------------------------- how near it is

  /** An odd factor takes no power of 2 away. */
  lemma {:induction false} OddFactor(q: nat, m: nat, k: nat, c: nat) returns (d: nat)
    requires q % 2 == 1 && q * m == Pow2(k) * c
    ensures m == Pow2(k) * d
  {
    if k == 0 {
      d := m;
    } else {
      var p, h := Pow2(k - 1), m / 2;
      DoubleProduct(c, p);
      assert Pow2(k) * c == 2 * (p * c) by { assert Pow2(k) == 2 * p; }
      OddTimes(q, m);
      d := OddFactor(q, h, k - 1, c);
      assert m == 2 * (p * d);
    }
  }

  /** An even product with an odd factor halves in the other factor. */
  lemma OddTimes(q: nat, m: nat)
    requires q % 2 == 1 && q * m % 2 == 0
    ensures m % 2 == 0 && q * m == 2 * (q * (m / 2))
  {
    var x, y := q / 2, m / 2;
    if m % 2 == 1 { OddSquare(x, y, q, m); }
    EvenTimes(q, m, y);
  }

  lemma OddSquare(x: nat, y: nat, q: nat, m: nat)
    requires q == 2 * x + 1 && m == 2 * y + 1
    ensures q * m == 2 * (2 * (x * y) + x + y) + 1
  {
  }

  lemma EvenTimes(q: nat, m: nat, y: nat)
    ensures m == 2 * y ==> q * m == 2 * (q * y)
  {
  }

  /** `r` units are strictly within half a unit of `n / (2 * m)`. */
  predicate WithinHalf(n: nat, m: nat, r: nat) {
    n - m < 2 * r * m < n + m && (r == HIDDEN ==> 2 * r * m <= n)
  }

  /** The rounded quotient is strictly within half a unit: a tie would need 2^24 to divide the divisor. */
  lemma NoTies(a: nat, b: nat)
    ensures WithinHalf(Numerator(a, b) * 0x100_0000, Mant(b), QuotientMant(a, b))
  {
    QuotientBits(a, b);
    var q := LongQuotient(Numerator(a, b), Mant(b));
    NoTie(Numerator(a, b), Mant(b), q);
    Halved(q, QuotientMant(a, b), Mant(b));
  }

  lemma Halved(q: nat, r: nat, m: nat)
    requires r == RoundUp(q)
    ensures 2 * r * m == q * m + if q % 2 == 1 then m else 0
  {
    assert 2 * r == if q % 2 == 1 then q + 1 else q;
  }

  lemma NoTie(n: nat, m: nat, q: nat)
    requires HIDDEN <= m < 2 * HIDDEN && q == LongQuotient(n, m)
    ensures q * m <= n * 0x100_0000 < q * m + m
    ensures q % 2 == 1 ==> q * m != n * 0x100_0000
  {
    assert n * 0x100_0000 == m * q + n * 0x100_0000 % m;
    if q % 2 == 1 && q * m == n * 0x100_0000 {
      Powers();
      var d := OddFactor(q, m, 24, n);
      assert false;
    }
  }

  // ---------------------------------------------------------------- the quotient as a real number

  lemma DividePowers(x: real, y: real, u: real, p: real, t: real, m1: real, n: real)
    requires x == Times(y, t) && t == Times(u, p) && Times(m1, p) == n * 8388608.0
    ensures Times(m1, x) == Times(n * 8388608.0, Times(u, y))
  {
    assert m1 * (y * (u * p)) == (m1 * p) * (u * y);
  }

  lemma NumeratorAt(ea: int, eb: int, e: int, m1: nat, n: nat, less: bool)
    requires e == ea - eb + EXCESS + (if less then 0 else 1) && n == if less then 2 * m1 else m1
    ensures Times(m1 as real, PowR(ea - 150)) == Times(n as real * 8388608.0, Times(PowR(e - 150), PowR(eb - 150)))
  {
    var k := if less then 24 else 23;
    PowersSplit(ea - 150, eb - 150, e - 150, k);
    Doubling(m1, n, PowR(k), k);
    DividePowers(PowR(ea - 150), PowR(eb - 150), PowR(e - 150), PowR(k), PowR(e - 150 + k), m1 as real, n as real);
  }

  lemma Doubling(m1: nat, n: nat, p: real, k: int)
    requires (if k == 24 then n == 2 * m1 else k == 23 && n == m1) && p == PowR(k)
    ensures Times(m1 as real, p) == n as real * 8388608.0
  {
    SmallPowers();
  }

  /** The numerator's significand and the quotient's exponent carry the numerator's magnitude. */
  lemma NumeratorValue(a: nat, b: nat)
    requires Normal(a) && Normal(b)
    ensures Magnitude(a) == Times(Numerator(a, b) as real * 8388608.0, Times(PowR(QuotientExp(a, b) - 150), Ulp(b)))
  {
    NumeratorAt(Exp(a), Exp(b), QuotientExp(a, b), Mant(a), Numerator(a, b), Mant(a) < Mant(b));
  }

  /** The exact quotient of the magnitudes, counted in units of the result. */
  lemma QuotientInUnits(a: nat, b: nat, q: real)
    requires Normal(a) && Normal(b) && Magnitude(b) != 0.0 && q == Magnitude(a) / Magnitude(b)
    ensures Times(Mant(b) as real, q) == Times(Numerator(a, b) as real * 8388608.0, PowR(QuotientExp(a, b) - 150))
  {
    NumeratorValue(a, b);
    Cancel(q, Mant(b) as real, Ulp(b), Numerator(a, b) as real * 8388608.0, PowR(QuotientExp(a, b) - 150),
      Magnitude(a));
  }

  lemma Cancel(q: real, m: real, y: real, n: real, u: real, top: real)
    requires y > 0.0 && Times(m, y) != 0.0 && q == top / Times(m, y) && top == Times(n, Times(u, y))
    ensures Times(m, q) == Times(n, u)
  {
    var z := Times(n, u);
    assert top == z * y;
    assert q * (m * y) == top;
    assert (m * q - z) * y == 0.0;
  }

  /** The code's exponent is one a normal number can have exactly when the quotient is in the normal range. */
  lemma QuotientExpFits(a: nat, b: nat, q: real)
    requires Normal(a) && Normal(b) && Magnitude(b) != 0.0 && q == Magnitude(a) / Magnitude(b)
    ensures 1 <= QuotientExp(a, b) <= 254 <==> InNormalRange(q)
  {
    QuotientInUnits(a, b, q);
    var e, n, m := QuotientExp(a, b), Numerator(a, b), Mant(b);
    var u := PowR(e - 150);
    Between(n as real, m as real, q, u);
    SmallPowers();
    PowRAdds(e - 150, 23);
    PowRAdds(e - 150, 24);
    if e >= 1 { PowRRises(-126, e - 127); } else { PowRRises(e - 126, -126); }
    if e <= 254 { PowRRises(e - 126, 128); } else { PowRRises(128, e - 127); }
  }

  lemma Between(n: real, m: real, q: real, u: real)
    requires 0.0 < m <= n < 2.0 * m && 0.0 < u && Times(m, q) == Times(n * 8388608.0, u)
    ensures Times(u, 8388608.0) <= q < Times(u, 16777216.0)
  {
    var v := u * 8388608.0;
    assert m * q == n * v;
    assert m * q >= m * v && m * q < 2.0 * m * v by {
      assert n * v >= m * v && n * v < (2.0 * m) * v;
    }
    assert m * (q - v) >= 0.0 && m * (q - 2.0 * v) < 0.0;
  }

  /** Division by +0 gives a plain number, not the NaN the code speaks of. */
  lemma DivByZeroIsNoNaN(a: nat)
    ensures Normal(DivWord(a, 0)) && Value(DivWord(a, 0)) == if Sign(a) == 0 then PowR(31) else PowR(32)
  {
    SmallPowers();
    PowRAdds(8, 23);
    PowRAdds(9, 23);
    var w := DivWord(a, 0);
    assert w == if Sign(a) == 0 then 0x4F00_0000 else 0x4F80_0000;
    assert Exp(w) == (if Sign(a) == 0 then 158 else 159) && Mant(w) == HIDDEN && Sign(w) == 0;
    NormalValue(w);
    assert Times(8388608.0, PowR(8)) == Times(PowR(8), 8388608.0)
      && Times(8388608.0, PowR(9)) == Times(PowR(9), 8388608.0);
  }

  /** In the normal range, division returns the one finite float nearest to the exact quotient. */
  lemma DivIsNearest(a: nat, b: nat)
    requires Normal(a) && Normal(b)
    ensures Value(b) != 0.0
    ensures InNormalRange(Value(a) / Value(b)) ==>
      Normal(DivWord(a, b)) && IsNearest(DivWord(a, b), Value(a) / Value(b))
  {
    AtLeastAUnit(b);
    var q := Magnitude(a) / Magnitude(b);
    SignedQuotient(Sign(a), Sign(b), Magnitude(a), Magnitude(b), q);
    QuotientExpFits(a, b, q);
    if 1 <= QuotientExp(a, b) <= 254 { NearestMagnitude(a, b, q); }
  }

  lemma SignedQuotient(s: nat, t: nat, x: real, y: real, q: real)
    requires x >= 0.0 && y > 0.0 && q == x / y && (s == 0 || s == SIGNBIT) && (t == 0 || t == SIGNBIT)
    ensures Signed(s, x) / Signed(t, y) == Signed(Xor(s, t), q) && q >= 0.0
  {
    assert q * y == x;
    var p := Signed(s, x) / Signed(t, y);
    assert p * Signed(t, y) == Signed(s, x);
    assert (p - Signed(Xor(s, t), q)) * y == 0.0;
  }

  lemma PackedQuotient(a: nat, b: nat)
    requires Normal(a) && Normal(b) && 1 <= QuotientExp(a, b) <= 254
    ensures var r := DivWord(a, b);
      Normal(r) && Ulp(r) == PowR(QuotientExp(a, b) - 150) && Sign(r) == Xor(Sign(a), Sign(b))
        && Mant(r) == QuotientMant(a, b)
  {
    QuotientBits(a, b);
    NotZero(a);
    NotZero(b);
    DivWordIs(a, b);
    PackedAs(DivWord(a, b), Xor(Sign(a), Sign(b)), QuotientExp(a, b), QuotientMant(a, b));
  }

  /** The word 0 divided by any other word is the word 0. */
  lemma DivZero(b: nat)
    requires b != 0
    ensures DivWord(0, b) == 0
  {
  }

  lemma DivWordIs(a: nat, b: nat)
    requires a != 0 && b != 0
    ensures DivWord(a, b) == Pack(Xor(Sign(a), Sign(b)), QuotientExp(a, b), QuotientMant(a, b) % HIDDEN)
  {
  }

  lemma PackedAs(r: nat, s: nat, e: int, m: nat)
    requires s == 0 || s == SIGNBIT
    requires r == Pack(s, e, m % HIDDEN) && 1 <= e <= 254 && HIDDEN <= m < 2 * HIDDEN
    ensures Normal(r) && Ulp(r) == PowR(e - 150) && Sign(r) == s && Mant(r) == m
  {
    PackWhole(s, e, m);
  }

  lemma NearestMagnitude(a: nat, b: nat, q: real)
    requires Normal(a) && Normal(b) && 1 <= QuotientExp(a, b) <= 254
    requires Magnitude(b) != 0.0 && q == Magnitude(a) / Magnitude(b)
    ensures Normal(DivWord(a, b)) && IsNearest(DivWord(a, b), Signed(Xor(Sign(a), Sign(b)), q))
  {
    PackedQuotient(a, b);
    NoTies(a, b);
    QuotientInUnits(a, b, q);
    NearResult(DivWord(a, b), Numerator(a, b), Mant(b), QuotientMant(a, b), q);
  }

  lemma NearResult(r: nat, n: nat, d: nat, m: nat, q: real)
    requires Normal(r) && Mant(r) == m && 0 < d && WithinHalf(n * 0x100_0000, d, m)
    requires Times(d as real, q) == Times(n as real * 8388608.0, Ulp(r))
    ensures IsNearest(r, Signed(Sign(r), q))
  {
    NearInUnits(n, d, m, q, Ulp(r));
    HalfUnitIsNearest(r, q);
  }

  lemma NearInUnits(n: nat, m: nat, r: nat, q: real, u: real)
    requires WithinHalf(n * 0x100_0000, m, r) && 0.0 < u && 0 < m
    requires Times(m as real, q) == Times(n as real * 8388608.0, u)
    ensures AbsR(Times(r as real, u) - q) < u / 2.0
    ensures r == HIDDEN ==> q >= Times(r as real, u)
  {
    var d := 2 * r * m - n * 0x100_0000;
    assert d as real == 2.0 * (r as real * m as real) - n as real * 16777216.0 by { Reals(r, m, n); }
    var x := Times(r as real, u) - q;
    Counts(r as real, m as real, n as real, q, u, d as real, x);
    if d < 0 { BelowHalf(m as real, -x, u, -(d as real)); } else { BelowHalf(m as real, x, u, d as real); }
  }

  lemma Reals(r: nat, m: nat, n: nat)
    ensures (2 * r * m - n * 0x100_0000) as real == 2.0 * (r as real * m as real) - n as real * 16777216.0
  {
    assert (r * m) as real == r as real * m as real;
    assert 2 * r * m == 2 * (r * m);
  }

  lemma Counts(r: real, m: real, n: real, q: real, u: real, d: real, x: real)
    requires d == 2.0 * (r * m) - n * 16777216.0 && x == Times(r, u) - q && Times(m, q) == Times(n * 8388608.0, u)
    ensures 2.0 * (m * x) == d * u
  {
    assert m * (r * u) == (r * m) * u;
    assert m * x == (r * m) * u - (n * 8388608.0) * u;
    assert d * u == 2.0 * ((r * m) * u) - (n * 16777216.0) * u;
  }

  lemma BelowHalf(m: real, x: real, u: real, d: real)
    requires 0.0 < m && 0.0 < u && 0.0 <= d < m && 2.0 * (m * x) == d * u
    ensures 0.0 <= x < u / 2.0
    ensures d == 0.0 ==> x == 0.0
  {
    assert d * u < m * u;
    assert m * (u - 2.0 * x) > 0.0;
    assert m * x >= 0.0;
  }
}
