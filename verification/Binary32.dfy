/** The binary32 format (IEEE 754-2008, section 3.4): words, their fields, and the reals they stand for. */
module Binary32 {
  import opened Words
  import opened Bits

  const SIGNBIT := 0x8000_0000
  const HIDDEN := 0x80_0000

  // ---------------------------------------------------------------- fields, as the macros take them

  function Sign(l: nat): nat { if l / SIGNBIT % 2 == 1 then SIGNBIT else 0 }

  function Exp(l: nat): nat { l / HIDDEN % 256 }

  function Mant(l: nat): nat { l % HIDDEN + HIDDEN }

  /** PACK; an exponent out of range spills into the other fields. */
  function Pack(s: nat, e: int, m: nat): nat {
    Or(Or(s, e * HIDDEN % WORD), m)
  }

  lemma Powers()
    ensures Pow2(8) == 256 && Pow2(23) == HIDDEN && Pow2(24) == 2 * HIDDEN && Pow2(31) == SIGNBIT && Pow2(32) == WORD
  {
    assert Pow2(4) == 16 && Pow2(3) == 8;
    Pow2Adds(4, 4);
    Pow2Adds(8, 8);
    Pow2Adds(16, 4);
    Pow2Adds(20, 3);
    Pow2Adds(23, 8);
  }

  /** SIGN, EXP and MANT as the masks they are. */
  lemma FieldsAreMasks(l: nat)
    ensures Sign(l) == And(l, 0x8000_0000)
    ensures Exp(l) == And(l / 0x80_0000, 0xFF)
    ensures Mant(l) == Or(And(l, 0x7F_FFFF), HIDDEN)
  {
    SignIsMask(l, SIGNBIT);
    ExpIsMask(l / HIDDEN, 0xFF);
    MantIsMask(l, 0x7F_FFFF);
  }

  lemma SignIsMask(l: nat, mask: nat)
    requires mask == SIGNBIT
    ensures And(l, mask) == Sign(l)
  {
    Powers();
    AndBit(l, 31);
  }

  lemma ExpIsMask(l: nat, mask: nat)
    requires mask == 0xFF
    ensures And(l, mask) == l % 256
  {
    Powers();
    AndLowMask(l, 8);
  }

  lemma MantIsMask(l: nat, mask: nat)
    requires mask == HIDDEN - 1
    ensures Or(And(l, mask), HIDDEN) == Mant(l)
  {
    Powers();
    AndLowMask(l, 23);
    OrIsSymmetric(l % HIDDEN, HIDDEN);
    OrDisjoint(HIDDEN, l % HIDDEN, 23);
  }

  lemma Rebuilt(l: nat, s: nat)
    requires s <= l < s + SIGNBIT && (s == 0 || s == SIGNBIT)
    ensures l == s + l / HIDDEN % 256 * HIDDEN + l % HIDDEN
  {
    assert s / HIDDEN == if s == 0 then 0 else 256;
    assert l / HIDDEN == s / HIDDEN + (l - s) / HIDDEN;
  }

  /** The fields make up the word. */
  lemma Fields(l: nat)
    requires l < WORD
    ensures Sign(l) == (if l < SIGNBIT then 0 else SIGNBIT)
    ensures l == Sign(l) + Exp(l) * HIDDEN + (Mant(l) - HIDDEN)
  {
    Rebuilt(l, Sign(l));
  }

  lemma OrIsSymmetric(a: nat, b: nat)
    ensures Or(a, b) == Or(b, a)
  {
    OrPlusAnd(a, b);
    OrPlusAnd(b, a);
    AndSymmetric(a, b);
  }

  lemma OrSign(s: nat, e: nat)
    requires s == 0 || s == SIGNBIT
    requires e < SIGNBIT
    ensures Or(s, e) == s + e
  {
    Powers();
    OrDisjoint(s, e, 31);
  }

  lemma OrMant(h: nat, e: nat, m: nat)
    requires m < HIDDEN && h == e * HIDDEN
    ensures Or(h, m) == h + m
  {
    Powers();
    Divided(h, HIDDEN, e, 0);
    OrDisjoint(h, m, 23);
  }

  lemma PackIsSum(s: nat, e: nat, m: nat)
    requires s == 0 || s == SIGNBIT
    requires e < 256 && m < HIDDEN
    ensures Pack(s, e, m) == s + e * HIDDEN + m
  {
    var high := e * HIDDEN;
    assert high % WORD == high;
    OrSign(s, high);
    OrMant(s + high, if s == 0 then e else 256 + e, m);
  }

  /** What is packed is found again. */
  lemma Unpack(s: nat, e: nat, m: nat)
    requires s == 0 || s == SIGNBIT
    requires e < 256 && m < HIDDEN
    ensures var l := Pack(s, e, m);
      l < WORD && Sign(l) == s && Exp(l) == e && Mant(l) == HIDDEN + m
  {
    PackIsSum(s, e, m);
    var l := s + e * HIDDEN + m;
    Fields(l);
    Divided(l, HIDDEN, if s == 0 then e else 256 + e, m);
  }

  lemma MantRange(l: nat)
    ensures HIDDEN <= Mant(l) < 2 * HIDDEN && Exp(l) < 256
  {
  }

  // ---------------------------------------------------------------- reals

  /** A product, named so that the solver sees it only where it is multiplied out. */
  function Times(x: real, y: real): real { x * y }

  function Doubles(k: nat): (r: real)
    ensures r > 0.0
  {
    if k == 0 then 1.0 else 2.0 * Doubles(k - 1)
  }

  function Halves(k: nat): (r: real)
    ensures r > 0.0
  {
    if k == 0 then 1.0 else 0.5 * Halves(k - 1)
  }

  /** 2 to the power `e`. */
  function PowR(e: int): (r: real)
    ensures r > 0.0
  {
    if e >= 0 then Doubles(e) else Halves(0 - e)
  }

  lemma PowRStep(e: int)
    ensures PowR(e + 1) == 2.0 * PowR(e)
  {
    assert e < 0 ==> 0 - e - 1 == 0 - (e + 1);
  }

  lemma {:induction false} PowRAdds(a: int, b: int)
    ensures PowR(a + b) == Times(PowR(a), PowR(b))
    decreases if b < 0 then -b else b
  {
    if b > 0 {
      PowRAdds(a, b - 1);
      PowRAddsOne(a, b - 1);
    } else if b < 0 {
      PowRAdds(a, b + 1);
      PowRAddsOne(a, b);
    }
  }

  lemma PowRAddsOne(a: int, b: int)
    ensures PowR(a + (b + 1)) == Times(PowR(a), PowR(b + 1)) <==> PowR(a + b) == Times(PowR(a), PowR(b))
  {
    PowRStep(a + b);
    PowRStep(b);
    assert a + (b + 1) == (a + b) + 1;
    BothDouble(PowR(a), PowR(b), PowR(b + 1), PowR(a + b), PowR(a + (b + 1)));
  }

  lemma BothDouble(x: real, y: real, y2: real, z: real, z2: real)
    requires y2 == 2.0 * y && z2 == 2.0 * z
    ensures z2 == Times(x, y2) <==> z == Times(x, y)
  {
    assert x * y2 == 2.0 * (x * y);
  }

  lemma {:induction false} PowRIsPow2(k: nat)
    ensures PowR(k) == Pow2(k) as real
  {
    if k > 0 { PowRIsPow2(k - 1); }
  }

  lemma {:induction false} PowRRises(a: int, b: int)
    requires a <= b
    ensures PowR(a) <= PowR(b)
    decreases b - a
  {
    if a < b {
      PowRRises(a, b - 1);
      PowRStep(b - 1);
    }
  }

  predicate Normal(l: nat) { l < WORD && 1 <= Exp(l) <= 254 }

  predicate Finite(l: nat) { l < WORD && Exp(l) <= 254 }

  /** The integer significand; below the least exponent there is no hidden bit. */
  function Significand(l: nat): nat { l % HIDDEN + if Exp(l) == 0 then 0 else HIDDEN }

  /** One unit in the last place. */
  function Ulp(l: nat): real { PowR((if Exp(l) == 0 then 1 else Exp(l)) - 150) }

  function Magnitude(l: nat): (r: real)
    ensures r >= 0.0
  {
    assert Significand(l) as real >= 0.0;
    Times(Significand(l) as real, Ulp(l))
  }

  function Signed(s: nat, m: real): real { if s == 0 then m else -m }

  function Value(l: nat): real { Signed(Sign(l), Magnitude(l)) }

  function AbsR(x: real): real { if x < 0.0 then -x else x }

  lemma NormalValue(l: nat)
    requires Normal(l)
    ensures Value(l) == Signed(Sign(l), Times(Mant(l) as real, PowR(Exp(l) - 150)))
  {
  }

  /** A packed word is the number its fields spell. */
  lemma PackedValue(s: nat, e: int, m: nat)
    requires s == 0 || s == SIGNBIT
    requires 1 <= e <= 254 && HIDDEN <= m < 2 * HIDDEN
    ensures var l := Pack(s, e, m - HIDDEN);
      Normal(l) && Ulp(l) == PowR(e - 150) && Sign(l) == s && Exp(l) == e && Mant(l) == m
      && Value(l) == Signed(s, Times(m as real, PowR(e - 150)))
  {
    Unpack(s, e, m - HIDDEN);
    NormalValue(Pack(s, e, m - HIDDEN));
  }

  // ---------------------------------------------------------------- the grid of finite floats

  /** Round a real to `r` by less than half a unit and no finite float is as near. */
  ghost predicate IsNearest(r: nat, q: real) {
    forall x: nat | Finite(x) && Value(x) != Value(r) :: AbsR(Value(x) - q) > AbsR(Value(r) - q)
  }

  /** Magnitudes near a normal `r`: above it one unit or more, below it one unit, or half of one at a power of 2. */
  lemma GridSteps(r: nat, x: nat, u: real)
    requires Normal(r) && Finite(x) && u == Ulp(r)
    ensures Magnitude(x) > Magnitude(r) ==> Magnitude(x) >= Magnitude(r) + u
    ensures Magnitude(x) < Magnitude(r) && Mant(r) > HIDDEN ==> Magnitude(x) <= Magnitude(r) - u
    ensures Magnitude(x) < Magnitude(r) ==> Magnitude(x) <= Magnitude(r) - u / 2.0
  {
    MantRange(r);
    var ex := if Exp(x) == 0 then 1 else Exp(x);
    var n, m := Significand(x), Significand(r);
    assert n < 2 * HIDDEN && HIDDEN <= m < 2 * HIDDEN;
    if ex > Exp(r) {
      PowRRises(Exp(r) + 1 - 150, ex - 150);
      PowRStep(Exp(r) - 150);
      CoarseStep(n, m, u, Ulp(x));
    } else if ex < Exp(r) {
      PowRRises(ex - 150, Exp(r) - 1 - 150);
      PowRStep(Exp(r) - 1 - 150);
      FineStep(n, m, u, Ulp(x));
    } else {
      EqualStep(n, m, u);
    }
  }

  lemma CoarseStep(n: nat, m: nat, u: real, v: real)
    requires HIDDEN <= n && m < 2 * HIDDEN && v >= 2.0 * u > 0.0
    ensures Times(n as real, v) >= Times(m as real, u) + u
  {
    assert n as real * v >= HIDDEN as real * v;
    assert (m + 1) as real * u <= (2 * HIDDEN) as real * u;
  }

  lemma FineStep(n: nat, m: nat, u: real, v: real)
    requires n < 2 * HIDDEN && HIDDEN <= m && 0.0 < v <= u / 2.0
    ensures Times(n as real, v) <= Times(m as real, u) - u / 2.0
    ensures m > HIDDEN ==> Times(n as real, v) <= Times(m as real, u) - u
  {
    Grows(n as real, 16777215.0, v);
    Grows(8388608.0, m as real, u);
    if m > HIDDEN { Grows(8388609.0, m as real, u); }
  }

  lemma Grows(x: real, y: real, z: real)
    requires x <= y && 0.0 <= z
    ensures Times(x, z) <= Times(y, z)
  {
  }

  lemma EqualStep(n: nat, m: nat, u: real)
    requires u > 0.0
    ensures n > m ==> Times(n as real, u) >= Times(m as real, u) + u
    ensures n < m ==> Times(n as real, u) <= Times(m as real, u) - u
    ensures n == m ==> Times(n as real, u) == Times(m as real, u)
  {
    assert n > m ==> n as real * u >= (m + 1) as real * u;
    assert n < m ==> n as real * u <= (m - 1) as real * u;
  }

  /** Less than half a unit away, and not below a power of 2, is nearest. */
  lemma HalfUnitIsNearest(r: nat, q: real)
    requires Normal(r)
    requires AbsR(Magnitude(r) - q) < Ulp(r) / 2.0 && (Mant(r) == HIDDEN ==> q >= Magnitude(r))
    ensures IsNearest(r, Signed(Sign(r), q))
  {
    forall x: nat | Finite(x) && Value(x) != Value(r)
      ensures AbsR(Value(x) - Signed(Sign(r), q)) > AbsR(Value(r) - Signed(Sign(r), q))
    {
      GridSteps(r, x, Ulp(r));
      MantRange(r);
      if (Sign(x) == 0) != (Sign(r) == 0) { AtLeastAUnit(r); }
    }
  }

  lemma NotZero(a: nat)
    requires Normal(a)
    ensures a != 0
  {
  }

  lemma AtLeastAUnit(r: nat)
    requires Normal(r)
    ensures Magnitude(r) >= Ulp(r)
  {
    EqualStep(Significand(r), 0, Ulp(r));
  }

  // ---------------------------------------------------------------- comparison

  /** Among finite words without a sign, the larger word is the larger number. */
  lemma WordsRise(a: nat, b: nat)
    requires Finite(a) && Finite(b) && a % SIGNBIT < b % SIGNBIT
    ensures Magnitude(a) < Magnitude(b)
  {
    WordParts(a);
    WordParts(b);
    Lexical(Exp(a), a % HIDDEN, Exp(b), b % HIDDEN);
    if Exp(a) == Exp(b) {
      EqualStep(Significand(a), Significand(b), Ulp(a));
    } else {
      HigherExponent(a, b);
    }
  }

  lemma WordParts(a: nat)
    requires a < WORD
    ensures a % SIGNBIT == Exp(a) * HIDDEN + a % HIDDEN
  {
    Fields(a);
  }

  lemma Lexical(e: nat, m: nat, f: nat, n: nat)
    requires e * HIDDEN + m < f * HIDDEN + n && m < HIDDEN && n < HIDDEN
    ensures e < f || (e == f && m < n)
  {
  }

  lemma HigherExponent(a: nat, b: nat)
    requires Finite(a) && Finite(b) && Exp(a) < Exp(b)
    ensures Magnitude(a) < Magnitude(b)
  {
    var ea := if Exp(a) == 0 then 1 else Exp(a);
    if ea < Exp(b) {
      PowRRises(ea - 150, Exp(b) - 1 - 150);
      PowRStep(Exp(b) - 1 - 150);
      FineStep(Significand(a), Significand(b), Ulp(b), Ulp(a));
    } else {
      EqualStep(Significand(a), Significand(b), Ulp(a));
    }
  }

  // ---------------------------------------------------------------- what the arithmetic functions share

  const EXCESS := 126
  const NOT_HIDDEN := 0xFF7F_FFFF

  function SignOf(x: int): nat { if x < 0 then SIGNBIT else 0 }

  /** The sign of a product or a quotient. */
  function Xor(s: nat, t: nat): nat { if s == t then 0 else SIGNBIT }

  /** `& ~HIDDEN` takes the hidden bit off a significand. */
  lemma ClearHidden(m: nat)
    requires HIDDEN <= m < 2 * HIDDEN
    ensures And(m, NOT_HIDDEN) == m - HIDDEN == m % HIDDEN
  {
    MaskedLow(m, NOT_HIDDEN, 0x7F_FFFF);
    assert m % HIDDEN == m - HIDDEN;
  }

  lemma MaskedLow(m: nat, mask: nat, low: nat)
    requires m < 2 * HIDDEN && low == HIDDEN - 1 == mask % 0x100_0000
    ensures And(m, mask) == m % HIDDEN
  {
    AndSymmetric(m, mask);
    NarrowMask(mask, m, low);
    AndSymmetric(m, low);
    LowMask(m, low);
  }

  lemma NarrowMask(mask: nat, m: nat, low: nat)
    requires m < 2 * HIDDEN && low == mask % 0x100_0000
    ensures And(mask, m) == And(low, m)
  {
    Powers();
    AndNarrow(mask, m, 24);
  }

  lemma LowMask(m: nat, low: nat)
    requires low == HIDDEN - 1
    ensures And(m, low) == m % HIDDEN
  {
    Powers();
    AndLowMask(m, 23);
  }

  lemma SmallPowers()
    ensures PowR(23) == 8388608.0 && PowR(24) == 16777216.0
  {
    Powers();
    PowRIsPow2(23);
    PowRIsPow2(24);
  }

  lemma PowersSplit(x: int, y: int, e: int, k: int)
    requires x == y + (e + k)
    ensures PowR(x) == Times(PowR(y), PowR(e + k)) && PowR(e + k) == Times(PowR(e), PowR(k))
  {
    PowRAdds(y, e + k);
    PowRAdds(e, k);
  }

  lemma PackWhole(s: nat, e: int, m: nat)
    requires s == 0 || s == SIGNBIT
    requires 1 <= e <= 254 && HIDDEN <= m < 2 * HIDDEN
    ensures var r := Pack(s, e, m % HIDDEN);
      Normal(r) && Ulp(r) == PowR(e - 150) && Sign(r) == s && Exp(r) == e && Mant(r) == m
  {
    assert m % HIDDEN == m - HIDDEN;
    PackedValue(s, e, m);
  }


  /** From the least normal magnitude up to 2^128. */
  predicate InNormalRange(q: real) { PowR(-126) <= AbsR(q) < PowR(128) }

  /** `m` units of 2^(e-150) are within 17/32 of one unit of `q`; at a power of 2, within half that from below. */
  predicate Near(m: nat, e: int, q: real) {
    var u := PowR(e - 150);
    AbsR(Times(m as real, u) - q) < 17.0 / 32.0 * u && (m == HIDDEN ==> Times(m as real, u) - q < 17.0 / 64.0 * u)
  }

  /** The same in whole numbers of a smaller unit, 2^j to a unit. */
  predicate NearInt(m: nat, p: int, j: nat) {
    var d := m * Pow2(j) - p;
    -17 * Pow2(j) < 32 * d < 17 * Pow2(j) && (m == HIDDEN ==> 64 * d < 17 * Pow2(j))
  }

  /** A value counted in 2^x, and a unit of 2^(j-i) of those. */
  lemma NearScaled(m: nat, e: int, q: real, p: int, i: nat, j: nat, x: int)
    requires NearInt(m, p * Pow2(i), j) && e - 150 + i == x + j && q == Times(p as real, PowR(x))
    ensures Near(m, e, q)
  {
    var y := x - i;
    PowRAdds(y, j);
    PowRAdds(y, i);
    PowRIsPow2(j);
    PowRIsPow2(i);
    MoreUnits(p, Pow2(i), PowR(y), PowR(x));
    NearUnits(m, PowR(e - 150), q, p * Pow2(i), Pow2(j), PowR(y));
  }

  lemma MoreUnits(p: int, w: nat, y: real, x: real)
    requires x == Times(y, w as real)
    ensures Times(p as real, x) == Times((p * w) as real, y)
  {
    assert (p * w) as real == p as real * w as real;
  }

  lemma NearUnits(m: nat, u: real, q: real, p: int, w: nat, x: real)
    requires 0.0 < x && u == Times(x, w as real) && q == Times(p as real, x)
    requires -17 * w < 32 * (m * w - p) < 17 * w && (m == HIDDEN ==> 64 * (m * w - p) < 17 * w)
    ensures AbsR(Times(m as real, u) - q) < 17.0 / 32.0 * u
      && (m == HIDDEN ==> Times(m as real, u) - q < 17.0 / 64.0 * u)
  {
    var d, wr := (m * w - p) as real, w as real;
    assert d == m as real * wr - p as real;
    Counted(m as real, wr, p as real, x, u, q, d);
    Weighed(17.0 * wr - 32.0 * d, x, wr, d, u, 17.0, -32.0);
    Weighed(17.0 * wr + 32.0 * d, x, wr, d, u, 17.0, 32.0);
    if m == HIDDEN { Weighed(17.0 * wr - 64.0 * d, x, wr, d, u, 17.0, -64.0); }
  }

  lemma Counted(m: real, w: real, p: real, x: real, u: real, q: real, d: real)
    requires u == Times(x, w) && q == Times(p, x) && d == m * w - p
    ensures Times(m, u) - q == Times(d, x)
  {
    assert m * (x * w) == (m * w) * x;
  }

  lemma Weighed(c: real, x: real, w: real, d: real, u: real, j: real, k: real)
    requires c > 0.0 && x > 0.0 && c == j * w + k * d && u == Times(x, w)
    ensures j * u + k * Times(d, x) > 0.0
  {
    assert c * x > 0.0;
    assert c * x == j * (x * w) + k * (d * x);
  }

  /** The magnitudes normal numbers can have. */
  predicate NormalMagnitude(q: real) { PowR(-126) <= q <= Times(16777215.0, PowR(104)) }

  /** A result near a normal magnitude has a normal exponent. */
  lemma NearInRange(m: nat, e: int, q: real)
    requires HIDDEN <= m < 2 * HIDDEN && Near(m, e, q) && NormalMagnitude(q)
    ensures 1 <= e <= 254
  {
    var u := PowR(e - 150);
    Grows(m as real, 16777215.0, u);
    Grows(8388608.0, m as real, u);
    SmallPowers();
    if e <= 0 {
      PowRRises(e - 150, -150);
      PowRAdds(-150, 24);
    } else if e >= 255 {
      PowRRises(105, e - 150);
      PowRStep(104);
      if m > HIDDEN { Grows(8388609.0, m as real, u); }
    }
  }

  /** A normal float of the right sign, less than 17/32 of a unit in its last place away. */
  predicate Accurate(r: nat, q: real) {
    Normal(r) && AbsR(Value(r) - q) < 17.0 / 32.0 * Ulp(r)
  }

  lemma NearIsAccurate(s: nat, e: int, m: nat, q: real)
    requires s == 0 || s == SIGNBIT
    requires HIDDEN <= m < 2 * HIDDEN && Near(m, e, q) && NormalMagnitude(q)
    ensures Accurate(Pack(s, e, m % HIDDEN), Signed(s, q)) && Sign(Pack(s, e, m % HIDDEN)) == s
  {
    NearInRange(m, e, q);
    PackWhole(s, e, m);
  }
}
