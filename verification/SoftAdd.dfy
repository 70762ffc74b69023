/** Single-precision addition with six guard bits. */
module SoftAdd {
  import opened Words
  import opened Bits
  import opened Binary32

  const TOP := 0x2000_0000

  // ---------------------------------------------------------------- what the code computes

  /** The signed significand with its six guard bits. */
  function Widened(l: nat): int { if Sign(l) == 0 then 64 * Mant(l) else -64 * Mant(l) }

  /** Arithmetic shift right: rounds down. */
  function Shifted(m: int, d: nat): int { m / Pow2(d) }

  function Aligned(a: nat, b: nat): int {
    if Exp(a) > Exp(b) then Widened(a) + Shifted(Widened(b), Exp(a) - Exp(b))
    else Shifted(Widened(a), Exp(b) - Exp(a)) + Widened(b)
  }

  function Larger(a: nat, b: nat): nat { if Exp(a) > Exp(b) then Exp(a) else Exp(b) }

  /** How often the first loop doubles. */
  function Doublings(n: nat): nat
    requires n > 0
    decreases TOP - n
  {
    if n >= TOP then 0 else 1 + Doublings(2 * n)
  }

  function Raised(n: nat): nat
    requires n > 0
    decreases TOP - n
  {
    if n >= TOP then n else Raised(2 * n)
  }

  /** Bit 29 is the top bit. */
  function Lowered(n: nat): nat { if n >= 2 * TOP then n / 2 else n }

  /** Six bits rounded off, half to even. */
  function RoundedOff(n: nat): nat { (n + if n / 64 % 2 == 1 then 0x20 else 0x1F) / 64 }

  function SumMant(n: nat): nat
    requires n > 0
  {
    var r := RoundedOff(Lowered(Raised(n)));
    if r == 2 * HIDDEN then HIDDEN else r
  }

  function SumExp(n: nat, e: int): int
    requires n > 0
  {
    e - Doublings(n) + (if Raised(n) >= 2 * TOP then 1 else 0)
    + if RoundedOff(Lowered(Raised(n))) == 2 * HIDDEN then 1 else 0
  }

  function AddWord(a: nat, b: nat): nat {
    if a == 0 then b
    else if b == 0 then a
    else if Exp(a) > Exp(b) + 25 then a
    else if Exp(b) > Exp(a) + 25 then b
    else Packed(Aligned(a, b), Larger(a, b))
  }

  function Packed(s: int, e: int): nat {
    if s == 0 then 0 else Pack(SignOf(s), SumExp(Abs(s), e), SumMant(Abs(s)) % HIDDEN)
  }

  lemma AddCommutes(a: nat, b: nat)
    ensures AddWord(a, b) == AddWord(b, a)
  {
    assert Shifted(Widened(a), 0) == Widened(a) && Shifted(Widened(b), 0) == Widened(b);
  }

  lemma {:induction false} RaisedIs(n: nat)
    requires 0 < n < 4 * TOP
    ensures Raised(n) == n * Pow2(Doublings(n)) && TOP <= Raised(n) < 4 * TOP
    ensures n < TOP ==> Raised(n) < 2 * TOP
    ensures n < TOP <==> Doublings(n) > 0
    ensures TOP / 2 <= n ==> Doublings(n) <= 1
    decreases TOP - n
  {
    if n < TOP {
      RaisedIs(2 * n);
      RaiseOnce(n, Pow2(Doublings(2 * n)));
    }
  }

  lemma RaiseOnce(n: nat, p: nat)
    ensures 2 * n * p == n * (2 * p)
  {
  }

  lemma LoweredIs(n: nat)
    requires TOP <= n < 4 * TOP
    ensures TOP <= Lowered(n) < 2 * TOP
  {
  }

  /** Rounding to 24 bits, or to 2^24. */
  lemma RoundedOffIs(n: nat)
    requires TOP <= n < 2 * TOP
    ensures HIDDEN <= RoundedOff(n) <= 2 * HIDDEN && -32 <= 64 * RoundedOff(n) - n <= 32
  {
  }

  /** The aligned sum fits a signed word. */
  lemma AlignedFits(a: nat, b: nat)
    ensures -4 * TOP < Aligned(a, b) < 4 * TOP
  {
    if Exp(a) > Exp(b) {
      ShiftShrinks(Widened(b), Exp(a) - Exp(b));
    } else {
      ShiftShrinks(Widened(a), Exp(b) - Exp(a));
    }
  }

  lemma ShiftShrinks(m: int, d: nat)
    requires -2 * TOP < m < 2 * TOP
    ensures -2 * TOP < Shifted(m, d) < 2 * TOP
  {
    var p := Pow2(d);
    assert m == p * (m / p) + m % p && 0 <= m % p < p;
    Shrinks(m, p, m / p, m % p);
  }

  lemma Shrinks(m: int, p: nat, q: int, r: nat)
    requires 1 <= p && m == p * q + r && r < p && -2 * TOP < m < 2 * TOP
    ensures -2 * TOP < q < 2 * TOP
  {
    assert q >= 2 * TOP ==> p * q >= q;
    assert q <= -2 * TOP ==> p * q + p <= q + 1;
  }

  // ---------------------------------------------------------------- the code

  method AddSf3(a: nat, b: nat) returns (r: nat)
    requires a < WORD && b < WORD
    ensures r == AddWord(a, b)
  {
    if a == 0 { return b; }
    if b == 0 { return a; }
    var exp1, exp2 := Exp(a), Exp(b);
    if exp1 > exp2 + 25 { return a; }
    if exp2 > exp1 + 25 { return b; }
    var mant1, mant2 := Mant(a) * 64, Mant(b) * 64;
    if Sign(a) != 0 { mant1 := -mant1; }
    if Sign(b) != 0 { mant2 := -mant2; }
    if exp1 > exp2 {
      mant2 := Shifted(mant2, exp1 - exp2);
    } else {
      mant1 := Shifted(mant1, exp2 - exp1);
      exp1 := exp2;
    }
    mant1 := mant1 + mant2;
    AlignedFits(a, b);
    assert mant1 == Aligned(a, b) && exp1 == Larger(a, b);
    r := NormalizeAndPack(mant1, exp1);
  }

  /** The tail of the function; no step leaves 31 bits. */
  method NormalizeAndPack(sum: int, e: int) returns (r: nat)
    requires -4 * TOP < sum < 4 * TOP
    ensures r == Packed(sum, e)
  {
    var mant1, exp1, sign := sum, e, 0;
    if mant1 < 0 {
      mant1 := -mant1;
      sign := SIGNBIT;
    } else if mant1 == 0 {
      return 0;
    }
    RaisedIs(mant1);
    mant1, exp1 := NormalizeUp(mant1, exp1);
    r := RoundAndPack(mant1, exp1, sign);
  }

  method NormalizeUp(n: nat, e: int) returns (m: nat, x: int)
    requires 0 < n < 4 * TOP
    ensures m == Raised(n) && x == e - Doublings(n)
  {
    m, x := n, e;
    TopBits(m);
    while And(m, 0xE000_0000) == 0
      invariant 0 < m < 4 * TOP
      invariant Raised(m) == Raised(n) && x - Doublings(m) == e - Doublings(n)
      invariant And(m, 0xE000_0000) == 0 <==> m < TOP
      decreases TOP - m
    {
      m := m * 2;
      x := x - 1;
      TopBits(m);
    }
  }

  /** Down to bit 29, round, down again after a carry, drop the guard bits. */
  method RoundAndPack(m: nat, e: int, sign: nat) returns (r: nat)
    requires TOP <= m < 4 * TOP
    ensures var c := RoundedOff(Lowered(m));
      r == Pack(sign, e + (if m >= 2 * TOP then 1 else 0) + (if c == 2 * HIDDEN then 1 else 0),
                (if c == 2 * HIDDEN then HIDDEN else c) % HIDDEN)
  {
    var mant1, exp1 := NormalizeDown(m, e);
    mant1, exp1 := RoundOff(mant1, exp1);
    ClearHidden(mant1);
    mant1 := And(mant1, NOT_HIDDEN);
    r := Pack(sign, exp1, mant1);
  }

  method NormalizeDown(m: nat, e: int) returns (mant1: nat, exp1: int)
    requires TOP <= m < 4 * TOP
    ensures mant1 == Lowered(m) && exp1 == e + (if m >= 2 * TOP then 1 else 0) && TOP <= mant1 < 2 * TOP
  {
    mant1, exp1 := m, e;
    Bit30(mant1);
    if And(mant1, 0x4000_0000) != 0 {
      mant1 := mant1 / 2;
      exp1 := exp1 + 1;
    }
  }

  method RoundOff(m: nat, e: int) returns (mant1: nat, exp1: int)
    requires TOP <= m < 2 * TOP
    ensures mant1 == (if RoundedOff(m) == 2 * HIDDEN then HIDDEN else RoundedOff(m)) && HIDDEN <= mant1 < 2 * HIDDEN
    ensures exp1 == e + if RoundedOff(m) == 2 * HIDDEN then 1 else 0
  {
    RoundedOffIs(m);
    Bit6(m);
    var odd := And(m, 0x40) != 0;
    mant1, exp1 := m + if odd then 0x20 else 0x1F, e;
    Bit30(mant1);
    if And(mant1, 0x4000_0000) != 0 {
      mant1 := mant1 / 2;
      exp1 := exp1 + 1;
    }
    mant1 := mant1 / 64;
  }

  lemma TopPowers()
    ensures Pow2(29) == TOP && Pow2(30) == 2 * TOP && Pow2(6) == 64
  {
    Powers();
    assert Pow2(6) == 64;
    Pow2Adds(23, 6);
  }

  lemma TopBits(m: nat)
    requires m < 4 * TOP
    ensures And(m, 0xE000_0000) == 0 <==> m < TOP
  {
    TopPowers();
    Powers();
    TestHighBits(m, 29, 32, TOP, 0xE000_0000);
  }

  lemma Bit30(m: nat)
    requires m < 4 * TOP
    ensures And(m, 0x4000_0000) != 0 <==> m >= 2 * TOP
  {
    TopPowers();
    TestTopBit(m, 30, 2 * TOP);
  }

  lemma Bit6(m: nat)
    ensures And(m, 0x40) != 0 <==> m / 64 % 2 == 1
  {
    TopPowers();
    AndBit(m, 6);
  }

  // ---------------------------------------------------------------- how near it is

  /** The sum of the significands before any bit is lost, counted in 2^(eb-156), where b has the smaller exponent. */
  function ExactSum(a: nat, b: nat): int
    requires Exp(a) >= Exp(b)
  {
    Widened(a) * Pow2(Exp(a) - Exp(b)) + Widened(b)
  }

  /** Aligning loses less than one count, nothing when the exponents are six apart or less. */
  lemma AlignmentLoss(a: nat, b: nat)
    requires Exp(a) >= Exp(b)
    ensures var d := Exp(a) - Exp(b);
      var lost := ExactSum(a, b) - Aligned(a, b) * Pow2(d);
      0 <= lost < Pow2(d) && (d <= 6 ==> lost == 0)
  {
    var d := Exp(a) - Exp(b);
    Floor(Widened(a), Widened(b), Pow2(d), Shifted(Widened(b), d));
    if d <= 6 {
      Pow2Adds(6 - d, d);
      SixBits();
      ExactShift(if Sign(b) == 0 then Mant(b) else 0 - Mant(b), Pow2(6 - d), Pow2(d), Widened(b));
    }
    AlignedIs(a, b);
  }

  lemma AlignedIs(a: nat, b: nat)
    requires Exp(a) >= Exp(b)
    ensures Aligned(a, b) == Widened(a) + Shifted(Widened(b), Exp(a) - Exp(b))
  {
    assert Exp(a) == Exp(b) ==> Shifted(Widened(a), 0) == Widened(a) && Shifted(Widened(b), 0) == Widened(b);
  }

  lemma SixBits()
    ensures Pow2(6) == 64
  {
  }

  lemma Floor(x: int, y: int, p: nat, f: int)
    requires 1 <= p && f == y / p
    ensures 0 <= x * p + y - (x + f) * p < p && x * p + y - (x + f) * p == y % p
  {
    assert y == p * f + y % p;
    assert (x + f) * p == x * p + p * f;
  }

  lemma ExactShift(w: int, k: nat, p: nat, y: int)
    requires 1 <= p && k * p == 64 && y == 64 * w
    ensures y % p == 0
  {
    assert y == p * (k * w) by { assert p * (k * w) == (k * p) * w; }
    ExactMultiple(y, p, k * w);
  }

  lemma ExactMultiple(y: int, p: nat, c: int)
    requires 1 <= p && y == p * c
    ensures y % p == 0
  {
    assert y == p * (y / p) + y % p;
    assert p * (c - y / p) == y % p;
    SmallMultiple(p, c - y / p);
  }

  /** Exponents two or more apart cannot cancel more than one bit. */
  lemma NoDeepCancellation(a: nat, b: nat)
    requires Exp(a) >= Exp(b) + 2
    ensures Abs(Aligned(a, b)) >= TOP / 2
  {
    var d := Exp(a) - Exp(b);
    Pow2Adds(d - 2, 2);
    assert Pow2(2) == 4;
    QuarterShift(Widened(b), Pow2(d), Shifted(Widened(b), d));
  }

  lemma QuarterShift(y: int, p: nat, f: int)
    requires 4 <= p && f == y / p && -2 * TOP < y < 2 * TOP
    ensures -(TOP / 2) <= f <= TOP / 2
  {
    assert y == p * f + y % p && 0 <= y % p < p;
    assert f > TOP / 2 ==> p * f >= 4 * f;
    assert f < -(TOP / 2) ==> p * f + p <= 4 * (f + 1);
  }

  /** The number of doublings when the guard bits lost something. */
  lemma SumIsNear(a: nat, b: nat)
    requires Exp(a) >= Exp(b) && Aligned(a, b) != 0
    ensures var s := Aligned(a, b);
      var n, d := Abs(s), Exp(a) - Exp(b);
      var p := if s < 0 then -ExactSum(a, b) else ExactSum(a, b);
      HIDDEN <= SumMant(n) < 2 * HIDDEN
      && Near(SumMant(n), SumExp(n, Exp(a)), Times(p as real, PowR(Exp(b) - 156)))
  {
    var s := Aligned(a, b);
    var n, d := Abs(s), Exp(a) - Exp(b);
    AlignedFits(a, b);
    RaisedIs(n);
    LoweredIs(Raised(n));
    RoundedOffIs(Lowered(Raised(n)));
    AlignmentLoss(a, b);
    var lost := if s < 0 then s * Pow2(d) - ExactSum(a, b) else ExactSum(a, b) - s * Pow2(d);
    if d >= 2 { NoDeepCancellation(a, b); }
    var k := Doublings(n);
    assert k <= 1 || lost == 0;
    var p := if s < 0 then -ExactSum(a, b) else ExactSum(a, b);
    assert p == n * Pow2(d) + lost by { Negated(s, n, Pow2(d)); }
    var carry := if RoundedOff(Lowered(Raised(n))) == 2 * HIDDEN then 1 else 0;
    var j := 6 + d + (if Raised(n) >= 2 * TOP then 1 else 0) + carry;
    SumNearInt(n, k, Raised(n), d, lost, p, j);
    NearScaled(SumMant(n), SumExp(n, Exp(a)), Times(p as real, PowR(Exp(b) - 156)), p, k, j, Exp(b) - 156);
  }

  lemma Negated(s: int, n: nat, p: nat)
    requires n == Abs(s)
    ensures n * p == if s < 0 then -(s * p) else s * p
  {
  }

  lemma SumNearInt(n: nat, k: nat, m: nat, d: nat, lost: int, p: int, j: nat)
    requires TOP <= m < 4 * TOP && m == n * Pow2(k) && p == n * Pow2(d) + lost && 0 - Pow2(d) < lost < Pow2(d)
    requires k <= 1 || lost == 0
    requires k > 0 ==> m < 2 * TOP
    requires var c := RoundedOff(Lowered(m));
      j == 6 + d + (if m >= 2 * TOP then 1 else 0) + if c == 2 * HIDDEN then 1 else 0
    ensures var c := RoundedOff(Lowered(m));
      NearInt(if c == 2 * HIDDEN then HIDDEN else c, p * Pow2(k), j)
  {
    var w, u, c := Pow2(k), Pow2(d), RoundedOff(Lowered(m));
    var f, g := if m >= 2 * TOP then 2 else 1, if c == 2 * HIDDEN then 2 else 1;
    RoundedOffIs(Lowered(m));
    SmallLoss(lost, k, u);
    Spread(n, u, lost, w);
    UnitIs(d, f, g, j);
    Weighed(m, c, f, g, u, lost * w, p * w, Pow2(j));
  }

  lemma SmallLoss(lost: int, k: nat, u: nat)
    requires 0 - u < lost < u && (k <= 1 || lost == 0)
    ensures -2 * u < lost * Pow2(k) < 2 * u && (k == 0 ==> lost * Pow2(k) == lost)
  {
    assert k == 1 ==> Pow2(k) == 2;
  }

  lemma Spread(n: nat, u: nat, lost: int, w: nat)
    ensures (n * u + lost) * w == (n * w) * u + lost * w
  {
  }

  lemma UnitIs(d: nat, f: nat, g: nat, j: nat)
    requires 1 <= f <= 2 && 1 <= g <= 2 && j == 6 + d + (f - 1) + (g - 1)
    ensures Pow2(j) == (f * g) * (64 * Pow2(d))
  {
    Pow2Adds(6, d);
    SixBits();
    var s := 6 + d;
    var v := Pow2(s);
    assert Pow2(1 + s) == 2 * v && Pow2(2 + s) == 4 * v;
    assert f * g == if f == 2 && g == 2 then 4 else if f == 1 && g == 1 then 1 else 2;
  }

  lemma Weighed(m: nat, c: nat, f: nat, g: nat, u: nat, loss: int, pw: int, unit: nat)
    requires TOP <= m < 4 * TOP && pw == m * u + loss && HIDDEN <= c <= 2 * HIDDEN && c == RoundedOff(Lowered(m))
    requires f == (if m >= 2 * TOP then 2 else 1) && g == if c == 2 * HIDDEN then 2 else 1
    requires -2 * u < loss < 2 * u && (f == 2 ==> 0 - u < loss < u)
    requires unit == (f * g) * (64 * u)
    ensures var r := if g == 2 then HIDDEN else c;
      -17 * unit < 32 * (r * unit - pw) < 17 * unit && (r == HIDDEN ==> 64 * (r * unit - pw) < 17 * unit)
  {
    var e := 64 * f * c - m;
    ErrorCounts(m, c, f);
    var r := if g == 2 then HIDDEN else c;
    assert r * g == c;
    assert r * unit == 64 * f * c * u by { Regrouped(r, f, g, u); }
    Difference(64 * f * c, m, u);
    ErrorBound(e, f, g, u, loss, e * u, unit, c == HIDDEN);
  }

  lemma Regrouped(r: nat, f: nat, g: nat, u: nat)
    ensures r * ((f * g) * (64 * u)) == 64 * f * (r * g) * u
  {
  }

  lemma Difference(x: int, y: int, u: nat)
    ensures x * u - y * u == (x - y) * u
  {
  }

  lemma ErrorCounts(m: nat, c: nat, f: nat)
    requires TOP <= m < 4 * TOP && c == RoundedOff(Lowered(m)) && f == if m >= 2 * TOP then 2 else 1
    ensures var e := 64 * f * c - m;
      1 - 33 * f <= e <= 32 * f && (c == HIDDEN ==> e <= 0)
  {
  }

  lemma ErrorBound(e: int, f: nat, g: nat, u: nat, loss: int, eu: int, unit: nat, hidden: bool)
    requires 1 <= f <= 2 && 1 <= g <= 2 && eu == e * u && 0 < u && unit == (f * g) * (64 * u)
    requires 1 - 33 * f <= e <= 32 * f && (hidden ==> e <= 0)
    requires -2 * u < loss < 2 * u && (f == 2 ==> 0 - u < loss < u)
    ensures -17 * unit < 32 * (eu - loss) < 17 * unit && (g == 2 || hidden ==> 64 * (eu - loss) < 17 * unit)
  {
    Bounded(e, if f == 1 then -32 else -65, if f == 1 then 32 else 64, u);
    Bounded(e, -65, if hidden then 0 else 64, u);
    assert unit == if f == 2 && g == 2 then 256 * u else if f == 1 && g == 1 then 64 * u else 128 * u;
    LinearBound(f, g, u, loss, eu, unit, hidden);
  }

  lemma Bounded(e: int, lo: int, hi: int, u: nat)
    requires lo <= e <= hi
    ensures lo * u <= e * u <= hi * u
  {
  }

  lemma LinearBound(f: nat, g: nat, u: nat, loss: int, eu: int, unit: nat, hidden: bool)
    requires 1 <= f <= 2 && 1 <= g <= 2 && 0 < u
    requires unit == if f == 2 && g == 2 then 256 * u else if f == 1 && g == 1 then 64 * u else 128 * u
    requires if f == 1 then -32 * u <= eu <= 32 * u else -65 * u <= eu <= 64 * u
    requires hidden ==> eu <= 0
    requires -2 * u < loss < 2 * u && (f == 2 ==> 0 - u < loss < u)
    ensures -17 * unit < 32 * (eu - loss) < 17 * unit && (g == 2 || hidden ==> 64 * (eu - loss) < 17 * unit)
  {
  }

  // ---------------------------------------------------------------- the sum as a real number

  lemma WidenedValue(l: nat)
    requires Normal(l)
    ensures Value(l) == Times(Widened(l) as real, PowR(Exp(l) - 156))
  {
    PowRAdds(Exp(l) - 156, 6);
    PowRIsPow2(6);
    SixBits();
    NormalValue(l);
    SixtyFour(Sign(l), Mant(l), Widened(l), PowR(Exp(l) - 150), PowR(Exp(l) - 156));
  }

  lemma SixtyFour(s: nat, m: nat, w: int, u: real, x: real)
    requires w == (if s == 0 then 64 * m else -64 * m) && u == Times(x, 64.0)
    ensures Signed(s, Times(m as real, u)) == Times(w as real, x)
  {
    assert w as real == if s == 0 then 64.0 * m as real else -64.0 * m as real;
  }

  lemma ExactSumValue(a: nat, b: nat)
    requires Normal(a) && Normal(b) && Exp(a) >= Exp(b)
    ensures Value(a) + Value(b) == Times(ExactSum(a, b) as real, PowR(Exp(b) - 156))
  {
    var d := Exp(a) - Exp(b);
    WidenedValue(a);
    WidenedValue(b);
    PowRAdds(Exp(b) - 156, d);
    PowRIsPow2(d);
    AddUp(Widened(a), Widened(b), Pow2(d), PowR(Exp(a) - 156), PowR(Exp(b) - 156), ExactSum(a, b));
  }

  lemma AddUp(w: int, v: int, p: nat, x: real, y: real, sum: int)
    requires x == Times(y, p as real) && sum == w * p + v
    ensures Times(w as real, x) + Times(v as real, y) == Times(sum as real, y)
  {
    assert sum as real == w as real * p as real + v as real;
  }

  /** An exponent gap beyond 25 leaves the smaller operand under half a unit of the larger. */
  lemma TooSmallToMatter(a: nat, b: nat, v: real)
    requires Normal(a) && Normal(b) && Exp(a) > Exp(b) + 25 && v == Value(a) + Value(b)
    ensures Accurate(a, v) && v != 0.0
  {
    QuarterUlp(Exp(a) - 150, Exp(b) - 150, Mant(b));
    NormalValue(b);
    AtLeastAUnit(a);
    FarApart(Sign(a), Magnitude(a), Sign(b), Magnitude(b), Ulp(a));
  }

  lemma FarApart(s: nat, x: real, t: nat, y: real, u: real)
    requires 0.0 <= y <= u / 4.0 && u <= x && 0.0 < u
    ensures AbsR(Signed(s, x) - (Signed(s, x) + Signed(t, y))) <= u / 4.0 && Signed(s, x) + Signed(t, y) != 0.0
  {
  }

  lemma QuarterUlp(ea: int, eb: int, m: nat)
    requires ea >= eb + 26 && m < 2 * HIDDEN
    ensures Times(m as real, PowR(eb)) <= PowR(ea) / 4.0
  {
    PowRRises(eb, ea - 26);
    PowRAdds(ea - 26, 24);
    PowRStep(ea - 2);
    PowRStep(ea - 1);
    SmallPowers();
    Grows(m as real, 16777216.0, PowR(eb));
  }

  lemma NearSum(a: nat, b: nat, s: int, v: real)
    requires Normal(a) && Normal(b) && Exp(b) <= Exp(a) && s == Aligned(a, b) != 0
    requires v == Value(a) + Value(b) && NormalMagnitude(AbsR(v))
    ensures Accurate(Packed(s, Exp(a)), v)
  {
    var p := if s < 0 then -ExactSum(a, b) else ExactSum(a, b);
    var q := Times(p as real, PowR(Exp(b) - 156));
    SignedSum(a, b, p, q);
    SumIsNear(a, b);
    PackedIsNear(s, Exp(a), q, v);
  }

  lemma SignedSum(a: nat, b: nat, p: int, q: real)
    requires Normal(a) && Normal(b) && Exp(a) >= Exp(b)
    requires p == (if Aligned(a, b) < 0 then -ExactSum(a, b) else ExactSum(a, b))
      && q == Times(p as real, PowR(Exp(b) - 156))
    ensures q >= 0.0 && Value(a) + Value(b) == Signed(SignOf(Aligned(a, b)), q)
  {
    ExactSumValue(a, b);
    SameSign(a, b);
    SignedCount(ExactSum(a, b), p, PowR(Exp(b) - 156));
  }

  lemma SignedCount(e: int, p: int, x: real)
    requires x > 0.0 && (p == e || p == -e)
    ensures p >= 0 ==> Times(p as real, x) >= 0.0
    ensures Times(e as real, x) == if p == e then Times(p as real, x) else -Times(p as real, x)
  {
    assert p == -e ==> p as real == -(e as real);
  }

  lemma PackedIsNear(s: int, e: int, q: real, v: real)
    requires s != 0 && q >= 0.0 && v == Signed(SignOf(s), q) && NormalMagnitude(AbsR(v))
    requires var m := SumMant(Abs(s)); HIDDEN <= m < 2 * HIDDEN && Near(m, SumExp(Abs(s), e), q)
    ensures Accurate(Packed(s, e), v)
  {
    NearIsAccurate(SignOf(s), SumExp(Abs(s), e), SumMant(Abs(s)), q);
  }

  /** Alignment does not change the sign of the sum. */
  lemma SameSign(a: nat, b: nat)
    requires Exp(a) >= Exp(b)
    ensures Aligned(a, b) < 0 ==> ExactSum(a, b) < 0
    ensures Aligned(a, b) > 0 ==> ExactSum(a, b) > 0
    ensures Aligned(a, b) == 0 <==> ExactSum(a, b) == 0
  {
    AlignmentLoss(a, b);
    var s, d := Aligned(a, b), Exp(a) - Exp(b);
    if d >= 2 { NoDeepCancellation(a, b); }
    SignOfProduct(s, Pow2(d));
  }

  lemma SignOfProduct(s: int, p: nat)
    requires 1 <= p
    ensures if s < 0 then s * p <= 0 - p else if s == 0 then s * p == 0 else s * p >= p
  {
  }

  lemma AddOrdered(a: nat, b: nat, v: real)
    requires Normal(a) && Normal(b) && Exp(a) >= Exp(b) && v == Value(a) + Value(b)
    ensures NormalMagnitude(AbsR(v)) ==> Accurate(AddWord(a, b), v)
    ensures v == 0.0 ==> AddWord(a, b) == 0
  {
    AddWordIs(a, b);
    if Exp(a) > Exp(b) + 25 { TooSmallToMatter(a, b, v); } else { AddClose(a, b, Aligned(a, b), v); }
  }

  lemma AddWordIs(a: nat, b: nat)
    requires Normal(a) && Normal(b) && Exp(a) >= Exp(b)
    ensures AddWord(a, b) == if Exp(a) > Exp(b) + 25 then a else Packed(Aligned(a, b), Exp(a))
  {
    NotZero(a);
    NotZero(b);
    NearWord(a, b, Exp(a));
  }

  lemma NearWord(a: nat, b: nat, e: nat)
    requires a != 0 && b != 0 && e == Exp(a) >= Exp(b)
    ensures AddWord(a, b) == if e > Exp(b) + 25 then a else Packed(Aligned(a, b), e)
  {
    assert Larger(a, b) == e;
  }

  lemma AddClose(a: nat, b: nat, s: int, v: real)
    requires Normal(a) && Normal(b) && Exp(b) <= Exp(a) && s == Aligned(a, b) && v == Value(a) + Value(b)
    ensures NormalMagnitude(AbsR(v)) ==> Accurate(Packed(s, Exp(a)), v)
    ensures v == 0.0 ==> Packed(s, Exp(a)) == 0
  {
    ZeroSum(a, b);
    ZeroIsNoNormal();
    if s != 0 && NormalMagnitude(AbsR(v)) { NearSum(a, b, s, v); }
  }

  lemma ZeroIsNoNormal()
    ensures !NormalMagnitude(AbsR(0.0))
  {
  }

  /** Nothing is left of the aligned sum exactly when the operands cancel. */
  lemma ZeroSum(a: nat, b: nat)
    requires Normal(a) && Normal(b) && Exp(b) <= Exp(a)
    ensures Value(a) + Value(b) == 0.0 <==> Aligned(a, b) == 0
  {
    ExactSumValue(a, b);
    SameSign(a, b);
    NoZeroFactor(ExactSum(a, b), PowR(Exp(b) - 156));
  }

  lemma NoZeroFactor(e: int, x: real)
    requires x > 0.0
    ensures Times(e as real, x) == 0.0 <==> e == 0
  {
  }

  /**
   * Adding two normal floats commutes, is 0 when they cancel, and is within 17/32 of a unit in the last
   * place of the exact sum wherever that is a normal magnitude.
   */
  lemma AddIsAccurate(a: nat, b: nat)
    requires Normal(a) && Normal(b)
    ensures AddWord(a, b) == AddWord(b, a)
    ensures NormalMagnitude(AbsR(Value(a) + Value(b))) ==> Accurate(AddWord(a, b), Value(a) + Value(b))
    ensures Value(a) + Value(b) == 0.0 ==> AddWord(a, b) == 0
  {
    AddCommutes(a, b);
    if Exp(a) >= Exp(b) { AddOrdered(a, b, Value(a) + Value(b)); } else { AddOrdered(b, a, Value(a) + Value(b)); }
  }
}
