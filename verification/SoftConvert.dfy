/** Conversion between 32-bit integers and single-precision floats, and comparison of floats. */
module SoftConvert {
  import opened Words
  import opened Bits
  import opened Binary32

  // ---------------------------------------------------------------- from integer to float

  /** How often the first loop halves, and what it leaves. */
  function Halvings(n: nat): nat { if n < 2 * HIDDEN then 0 else 1 + Halvings(n / 2) }

  function Down(n: nat): nat { if n < 2 * HIDDEN then n else Down(n / 2) }

  /** How often the second loop doubles, and what it leaves. */
  function Doublings(n: nat): nat
    requires n > 0
    decreases HIDDEN - n
  {
    if n >= HIDDEN then 0 else 1 + Doublings(2 * n)
  }

  function Up(n: nat): nat
    requires n > 0
    decreases HIDDEN - n
  {
    if n >= HIDDEN then n else Up(2 * n)
  }

  lemma {:induction false} DownIs(n: nat)
    ensures Down(n) == n / Pow2(Halvings(n)) && Down(n) < 2 * HIDDEN
    ensures Halvings(n) > 0 ==> Down(n) >= HIDDEN
    ensures n > 0 ==> Down(n) > 0
  {
    if n >= 2 * HIDDEN {
      DownIs(n / 2);
      Halve(n, Pow2(Halvings(n / 2)));
    }
  }

  lemma {:induction false} UpIs(n: nat)
    requires 0 < n < 2 * HIDDEN
    ensures Up(n) == n * Pow2(Doublings(n)) && HIDDEN <= Up(n) < 2 * HIDDEN
    ensures n >= HIDDEN ==> Doublings(n) == 0
    ensures n * Pow2(Doublings(n)) < 2 * HIDDEN
    decreases HIDDEN - n
  {
    if n < HIDDEN {
      UpIs(2 * n);
      Twice(n, Pow2(Doublings(2 * n)));
    }
  }

  lemma Twice(n: nat, p: nat)
    ensures 2 * n * p == n * (2 * p)
  {
  }

  function FloatWord(i: int): nat {
    if i == 0 then 0
    else
      var n := Abs(i);
      assert Down(n) > 0 by { DownIs(n); }
      Pack(SignOf(i), 150 + Halvings(n) - Doublings(Down(n)), Up(Down(n)) % HIDDEN)
  }

  lemma FloatWordIs(i: int, n: nat)
    requires n == Abs(i) > 0
    ensures Down(n) > 0
    ensures FloatWord(i) == Pack(SignOf(i), 150 + Halvings(n) - Doublings(Down(n)), Up(Down(n)) % HIDDEN)
  {
    DownIs(n);
  }

  /** Total on every integer but the least: see `FirstLoopStopsIff`. */
  method FloatSiSf(i: int) returns (r: nat)
    requires Int32(i) && i != LEAST
    ensures r == FloatWord(i)
  {
    var sign := if i >= 0 then 0 else 1;
    var af := if i >= 0 then i else -i;
    var ae := 0x80 + 22;
    if af == 0 { return 0; }
    FloatWordIs(i, af);
    DownIs(af);
    af, ae := Narrow(af, ae);
    af, ae := Normalize(af, ae);
    ClearLow(af);
    r := PackSigned(sign, ae, And(af, 0x7F_FFFF));
  }

  method PackSigned(sign: nat, ae: int, mant: nat) returns (r: nat)
    requires sign <= 1
    ensures r == Pack(if sign == 1 then SIGNBIT else 0, ae, mant)
  {
    var high := sign * SIGNBIT;
    r := Pack(high, ae, mant);
  }

  method Narrow(n: nat, e: int) returns (af: nat, ae: int)
    requires 0 < n < SIGNBIT
    ensures af == Down(n) && ae == e + Halvings(n)
  {
    af, ae := n, e;
    HighBits(af);
    while And(af, 0xFF00_0000) != 0
      invariant 0 < af < SIGNBIT
      invariant Down(af) == Down(n) && ae + Halvings(af) == e + Halvings(n)
      invariant And(af, 0xFF00_0000) != 0 <==> af >= 2 * HIDDEN
      decreases af
    {
      ae := ae + 1;
      af := af / 2;
      HighBits(af);
    }
  }

  method Normalize(n: nat, e: int) returns (af: nat, ae: int)
    requires 0 < n < 2 * HIDDEN
    ensures af == Up(n) && ae == e - Doublings(n) && HIDDEN <= af < 2 * HIDDEN
  {
    af, ae := n, e;
    HighBits(af);
    UpIs(n);
    while And(af, 0xFF80_0000) == 0
      invariant 0 < af < 2 * HIDDEN
      invariant Up(af) == Up(n) && ae - Doublings(af) == e - Doublings(n)
      invariant And(af, 0xFF80_0000) == 0 <==> af < HIDDEN
      decreases HIDDEN - af
    {
      ae := ae - 1;
      af := af * 2;
      HighBits(af);
    }
  }

  lemma HighBits(m: nat)
    requires m < WORD
    ensures And(m, 0xFF00_0000) != 0 <==> m >= 2 * HIDDEN
    ensures And(m, 0xFF80_0000) == 0 <==> m < HIDDEN
  {
    Powers();
    TestHighBits(m, 24, 32, 2 * HIDDEN, 0xFF00_0000);
    TestHighBits(m, 23, 32, HIDDEN, 0xFF80_0000);
  }

  lemma ClearLow(m: nat)
    ensures And(m, 0x7F_FFFF) == m % HIDDEN
  {
    LowMask(m, 0x7F_FFFF);
  }

  // ---------------------------------------------------------------- the one integer it never returns on

  /** Negation as 32 bits do it. */
  function Negated(i: int): int { if i >= 0 || i == LEAST then i else -i }

  /** The test of the first loop, on the 32 bits of `af`. */
  predicate LoopsOn(af: int)
    requires Int32(af)
  {
    And(if af < 0 then af + WORD else af, 0xFF00_0000) != 0
  }

  /** `af` after `n` arithmetic shifts right. */
  function After(af: int, n: nat): int
    decreases n
  {
    if n == 0 then af else After(af / 2, n - 1)
  }

  lemma {:induction false} AfterStays(af: int, n: nat)
    requires Int32(af)
    ensures Int32(After(af, n)) && (af < 0 <==> After(af, n) < 0)
    decreases n
  {
    if n > 0 { AfterStays(af / 2, n - 1); }
  }

  lemma {:induction false} HalvedOut(n: nat)
    requires n < 0x8000_0000
    ensures After(n, Halvings(n)) < 2 * HIDDEN
  {
    if n >= 2 * HIDDEN { HalvedOut(n / 2); }
  }

  ghost predicate FirstLoopStops(i: int)
    requires Int32(i)
  {
    exists n: nat :: Int32(After(Negated(i), n)) && !LoopsOn(After(Negated(i), n))
  }

  lemma FirstLoopStopsIff(i: int)
    requires Int32(i)
    ensures FirstLoopStops(i) <==> i != LEAST
  {
    if i == LEAST {
      forall n: nat ensures Int32(After(LEAST, n)) && LoopsOn(After(LEAST, n)) {
        AfterStays(LEAST, n);
        HighBits(After(LEAST, n) + WORD);
      }
    } else {
      var m := Negated(i);
      HalvedOut(m);
      AfterStays(m, Halvings(m));
      HighBits(After(m, Halvings(m)));
    }
  }

  // ---------------------------------------------------------------- from float to integer

  function ShiftRight(m: nat, shift: int): nat {
    if shift <= 0 then m
    else if shift < 31 then
      Smaller(m, Pow2(shift));
      m / Pow2(shift)
    else 0
  }

  function FixWord(a: nat): int {
    var m := ShiftRight(Mant(a) * 128, 157 - Exp(a));
    if Sign(a) == 0 then m else 0 - m
  }

  method FixSfSi(a: nat) returns (r: int)
    requires a < WORD
    ensures r == FixWord(a) && Int32(r)
  {
    var sign := a / SIGNBIT;
    var ae: int := And(a / HIDDEN, 0xFF);
    var af := Or(0x80_0000, And(a, 0x7F_FFFF));
    TakenApart(a);
    MantRange(a);
    af := af * 128;
    ghost var m := af;
    var shift := -(ae - 0x80 - 29);
    if shift > 0 {
      if shift < 31 {
        Smaller(af, Pow2(shift));
        af := af / Pow2(shift);
      } else {
        af := 0;
      }
    }
    assert af == ShiftRight(m, shift) <= m < SIGNBIT;
    r := if sign != 0 then -af else af;
  }

  lemma TakenApart(a: nat)
    requires a < WORD
    ensures And(a / HIDDEN, 0xFF) == Exp(a) && Or(0x80_0000, And(a, 0x7F_FFFF)) == Mant(a)
    ensures a / SIGNBIT != 0 <==> Sign(a) != 0
  {
    FieldsAreMasks(a);
    OrIsSymmetric(HIDDEN, And(a, 0x7F_FFFF));
  }

  lemma Smaller(m: nat, p: nat)
    requires 1 <= p
    ensures 0 <= m / p <= m
  {
    assert m == p * (m / p) + m % p;
  }

  // ---------------------------------------------------------------- there and back

  function BitLength(n: nat): nat { if n == 0 then 0 else 1 + BitLength(n / 2) }

  /** `n` with all but its 24 leading bits cleared. */
  function Leading24(n: nat): int { if BitLength(n) <= 24 then n else n - n % Pow2(BitLength(n) - 24) }

  lemma {:induction false} BitLengthIs(n: nat, k: nat)
    ensures n < Pow2(k) <==> BitLength(n) <= k
  {
    if n > 0 && k > 0 { BitLengthIs(n / 2, k - 1); }
  }

  lemma {:induction false} HalvingsIs(n: nat)
    ensures Halvings(n) == if BitLength(n) <= 24 then 0 else BitLength(n) - 24
  {
    Powers();
    BitLengthIs(n, 24);
    if n >= 2 * HIDDEN {
      HalvingsIs(n / 2);
      BitLengthIs(n / 2, 23);
    }
  }

  /** Converting to float and back keeps the 24 leading bits and the sign, so rounds toward zero. */
  lemma ConvertRoundTrip(i: int)
    requires Int32(i) && i != LEAST
    ensures FixWord(FloatWord(i)) == if i < 0 then -Leading24(-i) else Leading24(i)
    ensures -0x100_0000 <= i <= 0x100_0000 ==> FixWord(FloatWord(i)) == i
  {
    var n := Abs(i);
    if n == 0 {
      FixZero();
    } else {
      Converted(i, n);
    }
    if n <= 0x100_0000 { SmallIsExact(n); }
  }

  lemma FixZero()
    ensures FixWord(0) == 0
  {
  }

  lemma SmallIsExact(n: nat)
    requires n <= 0x100_0000
    ensures Leading24(n) == n
  {
    Powers();
    BitLengthIs(n, 24);
    BitLengthIs(n, 25);
    assert Pow2(25) == 0x200_0000;
    assert Pow2(1) == 2;
  }

  lemma Converted(i: int, n: nat)
    requires Int32(i) && i != LEAST && n == Abs(i) > 0
    ensures FixWord(FloatWord(i)) == if i < 0 then -Leading24(n) else Leading24(n)
  {
    FloatFields(i, n);
    BackAgain(FloatWord(i), i, n);
  }

  lemma BackAgain(w: nat, i: int, n: nat)
    requires Int32(i) && i != LEAST && n == Abs(i) > 0 && Halvings(n) <= 7 && Down(n) > 0 && Doublings(Down(n)) < 24
    requires Sign(w) == SignOf(i) && Exp(w) == 150 + Halvings(n) - Doublings(Down(n)) && Mant(w) == Up(Down(n))
    ensures FixWord(w) == if i < 0 then -Leading24(n) else Leading24(n)
  {
    var k, m := Halvings(n), Down(n);
    DownIs(n);
    UpIs(m);
    OneWay(n, m);
    Shifting(n, k, m, Doublings(m), Up(m), 7 - k + Doublings(m));
    LeadingIs(n);
  }

  lemma OneWay(n: nat, m: nat)
    requires n > 0 && m == Down(n) > 0
    ensures Halvings(n) == 0 || Doublings(m) == 0
  {
    DownIs(n);
    UpIs(m);
  }

  lemma LeadingIs(n: nat)
    ensures Leading24(n) == if Halvings(n) == 0 then n else n - n % Pow2(Halvings(n))
  {
    HalvingsIs(n);
  }

  lemma FloatFields(i: int, n: nat)
    requires Int32(i) && i != LEAST && n == Abs(i) > 0
    ensures Halvings(n) <= 7 && Down(n) > 0 && Doublings(Down(n)) < 24
    ensures var w := FloatWord(i);
      Normal(w) && Sign(w) == SignOf(i) && Exp(w) == 150 + Halvings(n) - Doublings(Down(n)) && Mant(w) == Up(Down(n))
  {
    FewHalvings(n);
    DownIs(n);
    var m := Down(n);
    UpIs(m);
    FewDoublings(m, Doublings(m));
    PackWhole(SignOf(i), 150 + Halvings(n) - Doublings(m), Up(m));
  }

  lemma FewHalvings(n: nat)
    requires n < SIGNBIT
    ensures Halvings(n) <= 7
  {
    Powers();
    BitLengthIs(n, 31);
    HalvingsIs(n);
  }

  lemma Shifting(n: nat, k: nat, m: nat, u: nat, up: nat, shift: int)
    requires k <= 7 && m == n / Pow2(k) && up == m * Pow2(u) && shift == 7 - k + u && u < 24 && (k == 0 || u == 0)
    ensures ShiftRight(up * 128, shift) == if k == 0 then n else n - n % Pow2(k)
  {
    if k == 0 {
      assert m == n by { assert Pow2(0) == 1; }
      ShiftedDown(n, u, shift);
    } else {
      assert up == m by { assert Pow2(0) == 1; }
      ShiftedUp(n, k, m, up);
    }
  }

  lemma FewDoublings(m: nat, u: nat)
    requires 0 < m && m * Pow2(u) < 2 * HIDDEN
    ensures u < 24
  {
    if u >= 24 {
      Powers();
      Pow2Adds(u - 24, 24);
      AtLeast(m, Pow2(u - 24));
    }
  }

  lemma AtLeast(m: nat, p: nat)
    requires 0 < m && 1 <= p
    ensures m * (p * (2 * HIDDEN)) >= 2 * HIDDEN
  {
    assert m * (p * (2 * HIDDEN)) == (m * p) * (2 * HIDDEN) && m * p >= 1;
  }

  lemma ShiftedDown(n: nat, u: nat, shift: nat)
    requires shift == 7 + u
    ensures n * Pow2(u) * 128 / Pow2(shift) == n
  {
    SevenBits(u);
    ScaleBack(n, Pow2(u), Pow2(shift));
  }

  lemma SevenBits(u: nat)
    ensures Pow2(7 + u) == 128 * Pow2(u)
  {
    Pow2Adds(7, u);
    assert Pow2(7) == 128;
  }

  lemma ScaleBack(n: nat, p: nat, q: nat)
    requires 1 <= p && q == 128 * p
    ensures n * p * 128 / q == n
  {
    assert n * p * 128 == q * n;
    Divided(n * p * 128, q, n, 0);
  }

  /** Widening by 7 bits and then narrowing by 7 - k leaves the integer with its low k bits cleared. */
  lemma ShiftedUp(n: nat, k: nat, m: nat, up: nat)
    requires 1 <= k <= 7 && m == n / Pow2(k) && up == m
    ensures (if k == 7 then up * 128 else up * 128 / Pow2(7 - k)) == n - n % Pow2(k)
  {
    Pow2Adds(k, 7 - k);
    assert Pow2(7) == 128;
    UpAndDown(n, m, Pow2(k), Pow2(7 - k));
    assert k == 7 ==> Pow2(0) == 1;
  }

  lemma UpAndDown(n: nat, m: nat, p: nat, q: nat)
    requires 1 <= p && 1 <= q && p * q == 128 && m == n / p
    ensures m * 128 / q == n - n % p
    ensures q == 1 ==> m * 128 == n - n % p
  {
    assert n == p * m + n % p;
    Times128(m, p, q);
    Divided(m * 128, q, p * m, 0);
  }

  lemma Times128(m: nat, p: nat, q: nat)
    requires p * q == 128
    ensures m * 128 == q * (p * m)
  {
    assert q * (p * m) == (p * q) * m;
  }

  /** Only 0 becomes the word 0. */
  lemma FloatZeroIff(i: int)
    requires Int32(i) && i != LEAST
    ensures FloatWord(i) == 0 <==> i == 0
  {
    if i != 0 { FloatFields(i, Abs(i)); }
  }

  /** The float itself stands for the integer's leading 24 bits: conversion rounds toward zero, too. */
  lemma FloatValue(i: int)
    requires Int32(i) && i != LEAST
    ensures Value(FloatWord(i)) == if i < 0 then -(Leading24(-i) as real) else Leading24(i) as real
  {
    var n := Abs(i);
    if n == 0 {
      assert Magnitude(0) == 0.0;
    } else {
      FloatFields(i, n);
      ValueOfUnits(FloatWord(i), i, n);
    }
  }

  lemma ValueOfUnits(w: nat, i: int, n: nat)
    requires n == Abs(i) > 0 && Normal(w) && Down(n) > 0
    requires Sign(w) == SignOf(i) && Exp(w) == 150 + Halvings(n) - Doublings(Down(n)) && Mant(w) == Up(Down(n))
    ensures Value(w) == if i < 0 then -(Leading24(n) as real) else Leading24(n) as real
  {
    NormalValue(w);
    UnitsAreLeading(n);
  }

  lemma UnitsAreLeading(n: nat)
    requires n > 0 && Down(n) > 0
    ensures Times(Up(Down(n)) as real, PowR(Halvings(n) - Doublings(Down(n)))) == Leading24(n) as real
  {
    DownIs(n);
    UpIs(Down(n));
    OneWay(n, Down(n));
    LeadingIs(n);
    LeadingValue(n, Halvings(n), Down(n), Doublings(Down(n)), Up(Down(n)), Leading24(n));
  }

  lemma LeadingValue(n: nat, k: nat, m: nat, u: nat, up: nat, lead: int)
    requires m == n / Pow2(k) && up == m * Pow2(u) && (k == 0 || u == 0)
    requires lead == if k == 0 then n else n - n % Pow2(k)
    ensures Times(up as real, PowR(k - u)) == lead as real
  {
    assert Pow2(0) == 1;
    if k == 0 {
      PowRAdds(0 - u, u);
      PowRIsPow2(u);
      UpAgain(m, Pow2(u), PowR(0 - u), up);
    } else {
      PowRIsPow2(k);
      CountsOf(n, m, Pow2(k));
    }
  }

  lemma CountsOf(n: nat, m: nat, p: nat)
    requires 1 <= p && m == n / p
    ensures Times(m as real, p as real) == (n - n % p) as real
  {
    assert n == p * m + n % p;
    assert (m * p) as real == m as real * p as real;
  }

  lemma UpAgain(m: nat, p: nat, x: real, up: nat)
    requires Times(x, p as real) == 1.0 && up == m * p
    ensures Times(up as real, x) == m as real
  {
    assert up as real == m as real * p as real;
    assert (m as real * p as real) * x == m as real * (x * p as real);
  }

  // ---------------------------------------------------------------- truncation

  /** The integer part of a real. */
  function Trunc(x: real): int { if x < 0.0 then -(-x).Floor else x.Floor }

  /** Conversion to integer truncates every finite float toward zero exactly when its magnitude is below 2^31;
      the test on the exponent is the one the shift count hangs on. */
  lemma FixTruncatesIff(a: nat)
    requires Finite(a)
    ensures FixWord(a) == Trunc(Value(a)) <==> Exp(a) <= 157
    ensures Exp(a) <= 157 <==> Magnitude(a) < PowR(31)
  {
    MantRange(a);
    MagnitudeBounds(a);
    var m := ShiftRight(Mant(a) * 128, 157 - Exp(a));
    if Exp(a) < 127 {
      assert Magnitude(a).Floor == 0 && m == 0;
    } else if Exp(a) <= 157 {
      ShiftIsFloor(Mant(a), Exp(a), Magnitude(a), m);
    } else {
      assert m == Mant(a) * 128 < 0x8000_0000 <= Magnitude(a).Floor;
    }
    TruncSigned(Sign(a), Magnitude(a));
  }

  lemma TruncSigned(s: nat, m: real)
    requires m >= 0.0
    ensures Trunc(Signed(s, m)) == if s == 0 then m.Floor else 0 - m.Floor
  {
  }

  lemma MagnitudeBounds(a: nat)
    requires Finite(a)
    ensures PowR(31) == 2147483648.0
    ensures Exp(a) < 127 ==> Magnitude(a) < 1.0
    ensures Exp(a) <= 157 ==> Magnitude(a) < PowR(31)
    ensures Exp(a) > 157 ==> Magnitude(a) >= PowR(31)
  {
    var e := if Exp(a) == 0 then 1 else Exp(a);
    var m, u := Significand(a) as real, Ulp(a);
    Powers();
    PowRIsPow2(31);
    PowRIsPow2(7);
    SmallPowers();
    PowRAdds(-24, 24);
    PowRAdds(7, 24);
    PowRAdds(8, 23);
    PowRStep(7);
    if e < 127 {
      PowRRises(e - 150, -24);
      UnitsBelow(m, u, PowR(-24));
    } else if e <= 157 {
      PowRRises(e - 150, 7);
      UnitsBelow(m, u, PowR(7));
    } else {
      PowRRises(8, e - 150);
      Grows(8388608.0, m, u);
    }
  }

  lemma UnitsBelow(m: real, u: real, v: real)
    requires 0.0 <= m < 16777216.0 && 0.0 < u <= v
    ensures Times(m, u) < Times(v, 16777216.0)
  {
    assert m * u <= m * v;
  }

  lemma ShiftIsFloor(m: nat, e: nat, x: real, r: nat)
    requires 127 <= e <= 157 && x == Times(m as real, PowR(e - 150)) && r == ShiftRight(m * 128, 157 - e)
    ensures x.Floor == r
  {
    var s := 157 - e;
    PowRAdds(e - 150, s);
    PowRIsPow2(s);
    PowRIsPow2(7);
    assert Pow2(7) == 128 && Pow2(0) == 1;
    Regroup(m as real, PowR(e - 150), Pow2(s) as real, x);
    FloorIs(x, m * 128, Pow2(s));
  }

  lemma Regroup(m: real, u: real, p: real, x: real)
    requires x == Times(m, u) && Times(u, p) == 128.0
    ensures Times(x, p) == m * 128.0
  {
    assert (m * u) * p == m * (u * p);
  }

  lemma FloorIs(x: real, n: nat, p: nat)
    requires 1 <= p && Times(x, p as real) == n as real
    ensures x.Floor == n / p
  {
    var q, r := n / p, n % p;
    assert n == p * q + r;
    assert n as real == p as real * q as real + r as real;
    assert (x - q as real) * p as real == r as real;
    assert 0.0 <= x - q as real < 1.0 by {
      Below(x - q as real, p as real, r as real);
    }
  }

  lemma Below(d: real, p: real, r: real)
    requires d * p == r && 0.0 <= r < p
    ensures 0.0 <= d < 1.0
  {
  }

  // ---------------------------------------------------------------- comparison

  /** The member `l` of union float_long, an int32_t. */
  function Int(w: nat): int { if w < SIGNBIT then w else w - WORD }

  function Flipped(w: nat): nat { if w < SIGNBIT then w + SIGNBIT else w - SIGNBIT }

  /** -1, 0 or 1, by comparing words as signed integers. */
  method CmpSf2(a: nat, b: nat) returns (c: int)
    requires a < WORD && b < WORD
    ensures c == CmpWord(a, b)
  {
    var l1, l2, i := Int(a), Int(b), 0;
    if Sign(a) != 0 && Sign(b) != 0 {
      l1 := Int(Flipped(a));
      l2 := Int(Flipped(b));
      i := 1;
    }
    if i == 0 {
      if l1 < l2 { return -1; }
      if l1 > l2 { return 1; }
      return 0;
    } else {
      if l1 > l2 { return -1; }
      if l1 < l2 { return 1; }
      return 0;
    }
  }

  function CmpWord(a: nat, b: nat): int {
    if a == b then 0
    else if Sign(a) != 0 && Sign(b) != 0 then if Int(Flipped(a)) > Int(Flipped(b)) then -1 else 1
    else if Int(a) < Int(b) then -1 else 1
  }

  function Order(x: real, y: real): int { if x < y then -1 else if x > y then 1 else 0 }

  predicate IsZero(a: nat) { a % SIGNBIT == 0 }

  /** Comparison orders all finite floats as numbers, except that it tells the two zeros apart. */
  lemma CompareOrdersIff(a: nat, b: nat)
    requires Finite(a) && Finite(b)
    ensures CmpWord(a, b) == Order(Value(a), Value(b)) <==> a == b || !IsZero(a) || !IsZero(b)
  {
    Fields(a);
    Fields(b);
    if Sign(a) == Sign(b) {
      if a < b { WordsRise(a, b); }
      if b < a { WordsRise(b, a); }
    } else {
      OnlyZeroIsZero(a);
      OnlyZeroIsZero(b);
    }
  }

  lemma OnlyZeroIsZero(a: nat)
    requires Finite(a)
    ensures Magnitude(a) == 0.0 <==> IsZero(a)
  {
    Fields(a);
    EqualStep(Significand(a), 0, Ulp(a));
  }

  /** +0 is taken for larger than -0. */
  lemma ZerosCompareUnequal()
    ensures Value(0) == Value(SIGNBIT) == 0.0 && CmpWord(0, SIGNBIT) == 1 && CmpWord(SIGNBIT, 0) == -1
  {
    OnlyZeroIsZero(0);
    OnlyZeroIsZero(SIGNBIT);
  }
}
