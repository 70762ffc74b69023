/** Which sums are rounded to the nearest float, ties to even, and which are not. */
module SoftAddRounding {
  import opened Words
  import opened Bits
  import opened Binary32
  import opened Rounding
  import opened SoftAdd

  /** Adding the word 0 changes nothing. */
  lemma AddZero(x: nat)
    ensures AddWord(x, 0) == x && AddWord(0, x) == x
  {
  }

  // ---------------------------------------------------------------- the sums that are misrounded

  /** Aligning `b` to the exponent of `a` drops bits that are not zero. */
  predicate Cuts(a: nat, b: nat)
    requires Exp(a) >= Exp(b)
  {
    64 * Mant(b) % Pow2(Exp(a) - Exp(b)) != 0
  }

  /** Normalizing down drops a bit that is not zero. */
  predicate DropsBit(m: nat) { m >= 2 * TOP && m % 2 == 1 }

  /**
   * The 30 bits that are left look like a tie, and bits that were dropped say that it is none: they lie above it and
   * the tie goes down, or below it and the tie goes up.
   */
  predicate LooksTied(m: nat, above: bool, below: bool) {
    var n := Lowered(m);
    n % 64 == 32 && if n / 64 % 2 == 0 then DropsBit(m) || above else below && !DropsBit(m)
  }

  /** A shifted sum is rounded down, so that its magnitude was larger when it is positive, smaller when negative. */
  predicate FalseTie(s: int, cut: bool)
    requires s != 0
  {
    LooksTied(Raised(Abs(s)), cut && s > 0, cut && s < 0)
  }

  predicate Misrounds(a: nat, b: nat)
    requires Exp(a) >= Exp(b)
  {
    Exp(a) <= Exp(b) + 25 && Aligned(a, b) != 0 && FalseTie(Aligned(a, b), Cuts(a, b))
  }

  predicate Misrounded(a: nat, b: nat) { if Exp(a) >= Exp(b) then Misrounds(a, b) else Misrounds(b, a) }

  // ---------------------------------------------------------------- rounding, in whole numbers

  /** `r` units of `w` are `d` above the exact sum: half a unit at most, a quarter below a power of two, ties even. */
  predicate RoundedRight(r: nat, d: int, w: nat) {
    0 - w <= 2 * d <= w && (r == HIDDEN ==> 4 * d <= w)
    && (2 * d == w || 2 * d == 0 - w || (r == HIDDEN && 4 * d == w) ==> r % 2 == 0)
  }

  /** The next float is nearer. */
  predicate RoundedShort(r: nat, d: int, w: nat) { r + 1 < 2 * HIDDEN && w < -2 * d < 2 * w }

  /** The last float is nearer. */
  predicate RoundedFar(r: nat, d: int, w: nat) { if r == HIDDEN then w < 4 * d < 2 * w else w < 2 * d < 2 * w }

  ghost predicate RoundedAs(wrong: bool, r: nat, d: int, w: nat) {
    if wrong then RoundedShort(r, d, w) || RoundedFar(r, d, w) else RoundedRight(r, d, w)
  }

  /** What rounding adds, 64 counts to a unit. */
  lemma RoundingAdds(m: nat, n: nat, c: nat, f: nat, e: int)
    requires TOP <= m < 4 * TOP && n == Lowered(m) && c == RoundedOff(n)
    requires f == (if m >= 2 * TOP then 2 else 1) && e == if f == 2 then 128 * c - m else 64 * c - m
    ensures n % 64 != 32 ==> if f == 2 then -63 <= e <= 62 else if m % 2 == 0 then -30 <= e <= 30 else -31 <= e <= 31
    ensures n % 64 == 32 ==> e == (if n / 64 % 2 == 0 then -32 * f else 32 * f) - (if DropsBit(m) then 1 else 0)
    ensures n % 64 == 32 ==> c % 2 == 0 && c == if n / 64 % 2 == 0 then n / 64 else n / 64 + 1
    ensures HIDDEN <= c <= 2 * HIDDEN && HIDDEN <= n / 64 < 2 * HIDDEN && (c == HIDDEN ==> e <= 0)
  {
  }

  /** The rounding is right unless it met a false tie. */
  lemma RoundingIs(m: nat, n: nat, c: nat, f: nat, g: nat, e: int, u: nat, loss: int, eu: int, w: nat)
    requires TOP <= m < 4 * TOP && n == Lowered(m) && c == RoundedOff(n)
    requires f == (if m >= 2 * TOP then 2 else 1) && e == if f == 2 then 128 * c - m else 64 * c - m
    requires g == (if c == 2 * HIDDEN then 2 else 1) && 0 < u && eu == e * u && w == (f * g) * (64 * u)
    requires -2 * u < loss < 2 * u && (f == 2 || m % 2 == 1 ==> 0 - u < loss < u)
    ensures RoundedAs(LooksTied(m, loss > 0, loss < 0), if g == 2 then HIDDEN else c, eu - loss, w)
  {
    RoundingAdds(m, n, c, f, e);
    UnitCounts(f, g, u, w);
    if n % 64 != 32 {
      var most := if f == 2 then 62 else if m % 2 == 0 then 30 else 31;
      Bounded(e, if f == 2 then -63 else 0 - most, if c == HIDDEN then 0 else most, u);
      NoTie(f, g, c, u, loss, eu, w, m % 2 == 0);
    } else if n / 64 % 2 == 0 {
      TieDown(f, g, c, u, loss, eu, w, DropsBit(m));
    } else {
      TieUp(f, g, c, u, loss, eu, w, DropsBit(m));
    }
  }

  lemma UnitCounts(f: nat, g: nat, u: nat, w: nat)
    requires 1 <= f <= 2 && 1 <= g <= 2 && w == (f * g) * (64 * u)
    ensures w == if f == 2 && g == 2 then 256 * u else if f == 1 && g == 1 then 64 * u else 128 * u
  {
  }

  lemma NoTie(f: nat, g: nat, c: nat, u: nat, loss: int, eu: int, w: nat, even: bool)
    requires 1 <= f <= 2 && g == (if c == 2 * HIDDEN then 2 else 1) && 0 < u
    requires w == if f == 2 && g == 2 then 256 * u else if f == 1 && g == 1 then 64 * u else 128 * u
    requires -2 * u < loss < 2 * u && (f == 2 || !even ==> 0 - u < loss < u)
    requires if f == 2 then -63 * u <= eu <= 62 * u
             else if even then -30 * u <= eu <= 30 * u else -31 * u <= eu <= 31 * u
    requires c == HIDDEN ==> eu <= 0
    ensures RoundedAs(false, if g == 2 then HIDDEN else c, eu - loss, w)
  {
    if f == 1 { assert -64 * u < 2 * (eu - loss) < 64 * u; } else { assert -128 * u < 2 * (eu - loss) < 128 * u; }
  }

  lemma TieDown(f: nat, g: nat, c: nat, u: nat, loss: int, eu: int, w: nat, drops: bool)
    requires 1 <= f <= 2 && g == 1 && HIDDEN <= c && c + 1 < 2 * HIDDEN && c % 2 == 0 && 0 < u && w == 64 * f * u
    requires -2 * u < loss < 2 * u && (f == 2 ==> 0 - u < loss < u) && (drops ==> f == 2)
    requires eu == if f == 1 then -32 * u else if drops then -65 * u else -64 * u
    ensures RoundedAs(drops || loss > 0, c, eu - loss, w)
  {
  }

  lemma TieUp(f: nat, g: nat, c: nat, u: nat, loss: int, eu: int, w: nat, drops: bool)
    requires 1 <= f <= 2 && HIDDEN < c <= 2 * HIDDEN && c % 2 == 0 && 0 < u && g == if c == 2 * HIDDEN then 2 else 1
    requires w == if f == 2 && g == 2 then 256 * u else if f == 1 && g == 1 then 64 * u else 128 * u
    requires -2 * u < loss < 2 * u && (f == 2 ==> 0 - u < loss < u) && (drops ==> f == 2)
    requires eu == if f == 1 then 32 * u else if drops then 63 * u else 64 * u
    ensures RoundedAs(!drops && loss < 0, if g == 2 then HIDDEN else c, eu - loss, w)
  {
  }

  /** The loss counted in the unit of the raised sum. */
  lemma LossScales(lost: int, k: nat, u: nat, m: nat, n: nat)
    requires 0 - u < lost < u && (k <= 1 || lost == 0) && m == n * Pow2(k)
    ensures var loss := lost * Pow2(k);
      -2 * u < loss < 2 * u && (k == 0 || m % 2 == 1 ==> loss == lost)
      && (loss > 0 <==> lost > 0) && (loss < 0 <==> lost < 0)
  {
    SmallLoss(lost, k, u);
    if k == 1 { assert Pow2(k) == 2; }
    if k > 0 { EvenProduct(n, Pow2(k - 1), m); }
  }

  lemma EvenProduct(n: nat, h: nat, m: nat)
    requires m == n * (2 * h)
    ensures m % 2 == 0
  {
    assert m == 2 * (n * h);
  }

  lemma CountedRounding(m: nat, c: nat, r: nat, f: nat, g: nat, u: nat, lost: int, loss: int, pw: int, w: nat)
    requires TOP <= m < 4 * TOP && c == RoundedOff(Lowered(m)) && r == (if g == 2 then HIDDEN else c)
    requires f == (if m >= 2 * TOP then 2 else 1) && g == if c == 2 * HIDDEN then 2 else 1
    requires 0 < u && pw == m * u + loss && w == (f * g) * (64 * u)
    requires -2 * u < loss < 2 * u && (f == 2 || m % 2 == 1 ==> 0 - u < loss < u)
    requires (loss > 0 <==> lost > 0) && (loss < 0 <==> lost < 0)
    ensures RoundedAs(LooksTied(m, lost > 0, lost < 0), r, r * w - pw, w)
  {
    var e := if f == 2 then 128 * c - m else 64 * c - m;
    assert r * g == c;
    assert r * w == 64 * f * c * u by { Regrouped(r, f, g, u); }
    Difference(64 * f * c, m, u);
    RoundingIs(m, Lowered(m), c, f, g, e, u, loss, e * u, w);
  }

  /** The rounding of a sum of `n * 2^d + lost`, raised by 2^k. */
  lemma RaisedRounding(n: nat, k: nat, m: nat, d: nat, lost: int, p: int, c: nat, j: nat, pw: int, w: nat)
    requires TOP <= m < 4 * TOP && m == n * Pow2(k) && p == n * Pow2(d) + lost && 0 - Pow2(d) < lost < Pow2(d)
    requires (k <= 1 || lost == 0) && (k > 0 ==> m < 2 * TOP) && c == RoundedOff(Lowered(m))
    requires j == 6 + d + (if m >= 2 * TOP then 1 else 0) + if c == 2 * HIDDEN then 1 else 0
    requires pw == p * Pow2(k) && w == Pow2(j)
    ensures var r := if c == 2 * HIDDEN then HIDDEN else c;
      RoundedAs(LooksTied(m, lost > 0, lost < 0), r, r * w - pw, w)
  {
    var f, g := if m >= 2 * TOP then 2 else 1, if c == 2 * HIDDEN then 2 else 1;
    LossScales(lost, k, Pow2(d), m, n);
    UnitIs(d, f, g, j);
    var loss := ScaledUp(n, Pow2(d), lost, p, Pow2(k), m, pw);
    CountedRounding(m, c, if g == 2 then HIDDEN else c, f, g, Pow2(d), lost, loss, pw, w);
  }

  lemma ScaledUp(n: nat, u: nat, lost: int, p: int, v: nat, m: nat, pw: int) returns (loss: int)
    requires p == n * u + lost && m == n * v && pw == p * v
    ensures loss == lost * v && pw == m * u + loss
  {
    Spread(n, u, lost, v);
    loss := lost * v;
  }

  /** What the alignment lost is not zero exactly when it cut bits off, and has the sign of the sum. */
  lemma LossIsCut(a: nat, b: nat, lost: int)
    requires Exp(a) >= Exp(b) && lost == ExactSum(a, b) - Aligned(a, b) * Pow2(Exp(a) - Exp(b))
    ensures 0 <= lost < Pow2(Exp(a) - Exp(b)) && (lost > 0 <==> Cuts(a, b))
  {
    var d := Exp(a) - Exp(b);
    Floor(Widened(a), Widened(b), Pow2(d), Shifted(Widened(b), d));
    AlignedIs(a, b);
    EitherSign(64 * Mant(b), Widened(b), Pow2(d));
  }

  lemma EitherSign(x: nat, y: int, p: nat)
    requires 1 <= p && (y == x || y == 0 - x)
    ensures x % p == 0 <==> y % p == 0
  {
    if y != x {
      assert x == p * (x / p) + x % p && y == p * (y / p) + y % p;
      if x % p == 0 { ExactMultiple(y, p, 0 - x / p); }
      if y % p == 0 { ExactMultiple(x, p, 0 - y / p); }
    }
  }

  /** How far the packed sum is from the exact one, in whole numbers of 2^(eb-156-k). */
  lemma SumRounding(a: nat, b: nat, s: int, p: int, k: nat, j: nat)
    requires Exp(a) >= Exp(b) && s == Aligned(a, b) != 0
    requires p == (if s < 0 then -ExactSum(a, b) else ExactSum(a, b)) && k == Doublings(Abs(s))
    requires j == 6 + (Exp(a) - Exp(b)) + SumExp(Abs(s), 0) + k
    ensures var r := SumMant(Abs(s));
      RoundedAs(FalseTie(s, Cuts(a, b)), r, r * Pow2(j) - p * Pow2(k), Pow2(j))
  {
    var n, d := Abs(s), Exp(a) - Exp(b);
    AlignedFits(a, b);
    RaisedIs(n);
    AlignmentLoss(a, b);
    if d >= 2 { NoDeepCancellation(a, b); }
    var cut := ExactSum(a, b) - s * Pow2(d);
    LossIsCut(a, b, cut);
    var lost := if s < 0 then -cut else cut;
    assert p == n * Pow2(d) + lost by { Negated(s, n, Pow2(d)); }
    RaisedRounding(n, k, Raised(n), d, lost, p, RoundedOff(Lowered(Raised(n))), j, p * Pow2(k), Pow2(j));
  }

  // ---------------------------------------------------------------- rounding, on values

  lemma RightIsNearest(r: nat, q: real, d: int, w: nat, y: real)
    requires Above(r, q, d, w, y) && RoundedRight(Mant(r), d, w)
    ensures NearestEven(r, Signed(Sign(r), q))
  {
    Distances(d, w, y);
    RoundsToEven(r, q);
  }

  lemma ShortIsNot(r: nat, q: real, d: int, w: nat, y: real)
    requires Above(r, q, d, w, y) && RoundedShort(Mant(r), d, w)
    ensures !NearestEven(r, Signed(Sign(r), q))
  {
    Distances(d, w, y);
    var x := NextIsNearer(r, q);
    assert Value(x) != Value(r);
  }

  lemma FarIsNot(r: nat, q: real, d: int, w: nat, y: real)
    requires Above(r, q, d, w, y) && RoundedFar(Mant(r), d, w) && q >= PowR(-126)
    ensures !NearestEven(r, Signed(Sign(r), q))
  {
    Distances(d, w, y);
    if Mant(r) == HIDDEN && Exp(r) == 1 {
      NormalValue(r);
      LeastNormal();
      assert false;
    }
    var x := LastIsNearer(r, q);
    assert Value(x) != Value(r);
  }

  lemma LeastNormal()
    ensures Times(8388608.0, PowR(-149)) == PowR(-126)
  {
    PowRAdds(-149, 23);
    SmallPowers();
  }

  /** A packed sum of normal magnitude has the fields that were packed. */
  lemma PackedFields(a: nat, b: nat, s: int, q: real)
    requires Exp(a) >= Exp(b) && s == Aligned(a, b) != 0 && NormalMagnitude(q)
    requires q == Times((if s < 0 then -ExactSum(a, b) else ExactSum(a, b)) as real, PowR(Exp(b) - 156))
    ensures var (r, n) := (Packed(s, Exp(a)), Abs(s));
      Normal(r) && Sign(r) == SignOf(s) && Exp(r) == SumExp(n, Exp(a)) && Mant(r) == SumMant(n)
  {
    var n := Abs(s);
    SumIsNear(a, b);
    NearInRange(SumMant(n), SumExp(n, Exp(a)), q);
    PackWhole(SignOf(s), SumExp(n, Exp(a)), SumMant(n));
  }

  /** Which packed sums are the nearest floats. */
  lemma PackedRounding(a: nat, b: nat, s: int, v: real)
    requires Normal(a) && Normal(b) && Exp(a) >= Exp(b) && s == Aligned(a, b) != 0
    requires v == Value(a) + Value(b) && NormalMagnitude(AbsR(v))
    ensures NearestEven(Packed(s, Exp(a)), v) <==> !FalseTie(s, Cuts(a, b))
  {
    var p, k := if s < 0 then -ExactSum(a, b) else ExactSum(a, b), Doublings(Abs(s));
    var q := Times(p as real, PowR(Exp(b) - 156));
    SignedSum(a, b, p, q);
    PackedFields(a, b, s, q);
    var j := 6 + (Exp(a) - Exp(b)) + SumExp(Abs(s), 0) + k;
    SumRounding(a, b, s, p, k, j);
    WordRounding(Packed(s, Exp(a)), Exp(a) + SumExp(Abs(s), 0), q, p, k, j, Exp(b) - 156,
                 FalseTie(s, Cuts(a, b)));
  }

  /** A word that was rounded in whole numbers of 2^(x-k). */
  lemma WordRounding(r: nat, e: int, q: real, p: int, k: nat, j: nat, x: int, bad: bool)
    requires Normal(r) && Exp(r) == e && e - 150 + k == x + j && q == Times(p as real, PowR(x)) && q >= PowR(-126)
    requires RoundedAs(bad, Mant(r), Mant(r) * Pow2(j) - p * Pow2(k), Pow2(j))
    ensures NearestEven(r, Signed(Sign(r), q)) <==> !bad
  {
    AboveScaled(r, e, Mant(r), q, p, k, j, x);
    var d, w := Mant(r) * Pow2(j) - p * Pow2(k), Pow2(j);
    if !bad {
      RightIsNearest(r, q, d, w, PowR(x - k));
    } else if RoundedShort(Mant(r), d, w) {
      ShortIsNot(r, q, d, w, PowR(x - k));
    } else {
      FarIsNot(r, q, d, w, PowR(x - k));
    }
  }

  /** The larger operand is nearest when the exponents are more than 25 apart. */
  lemma LargerIsNearest(a: nat, b: nat)
    requires Normal(a) && Normal(b) && Exp(a) > Exp(b) + 25
    ensures NearestEven(a, Value(a) + Value(b))
  {
    var q := Magnitude(a) + if Sign(a) == Sign(b) then Magnitude(b) else -Magnitude(b);
    QuarterUlp(Exp(a) - 150, Exp(b) - 150, Mant(b));
    NormalValue(b);
    MantRange(a);
    RoundsToEven(a, q);
  }

  lemma OrderedRounding(a: nat, b: nat)
    requires Normal(a) && Normal(b) && Exp(a) >= Exp(b) && NormalMagnitude(AbsR(Value(a) + Value(b)))
    ensures NearestEven(AddWord(a, b), Value(a) + Value(b)) <==> !Misrounds(a, b)
  {
    AddWordIs(a, b);
    if Exp(a) > Exp(b) + 25 {
      LargerIsNearest(a, b);
    } else {
      ZeroSum(a, b);
      ZeroIsNoNormal();
      PackedRounding(a, b, Aligned(a, b), Value(a) + Value(b));
    }
  }

  /** A sum of normal magnitude is the nearest float, ties to even, exactly when it is not misrounded. */
  lemma RoundsRightIff(a: nat, b: nat)
    requires Normal(a) && Normal(b) && NormalMagnitude(AbsR(Value(a) + Value(b)))
    ensures NearestEven(AddWord(a, b), Value(a) + Value(b)) <==> !Misrounded(a, b)
  {
    AddCommutes(a, b);
    if Exp(a) >= Exp(b) { OrderedRounding(a, b); } else { OrderedRounding(b, a); }
  }

  // ---------------------------------------------------------------- the sums no bit of which is dropped

  /** Bit 6 is the lowest that a gap of at most `d` can leave set. */
  lemma ShiftKeeps(b: nat, d: nat)
    requires d <= 6
    ensures 64 * Mant(b) % Pow2(d) == 0 && (d <= 5 ==> Shifted(Widened(b), d) % 2 == 0)
  {
    Pow2Adds(6 - d, d);
    SixBits();
    var w := if Sign(b) == 0 then Mant(b) else 0 - Mant(b);
    ExactShift(Mant(b), Pow2(6 - d), Pow2(d), 64 * Mant(b));
    assert Pow2(d) * (w * Pow2(6 - d)) == Widened(b) by { Regroup(Pow2(d), w, Pow2(6 - d)); }
    Divided(Widened(b), Pow2(d), w * Pow2(6 - d), 0);
    if d <= 5 { EvenFactor(w, Pow2(5 - d), Shifted(Widened(b), d)); }
  }

  lemma Regroup(p: nat, w: int, k: nat)
    requires k * p == 64
    ensures p * (w * k) == 64 * w
  {
    assert p * (w * k) == (k * p) * w;
  }

  lemma EvenFactor(w: int, h: nat, x: int)
    requires x == w * (2 * h)
    ensures x % 2 == 0
  {
    assert x == 2 * (w * h);
  }

  /** When alignment drops nothing, only a sum with a carry can meet a false tie. */
  lemma FalseTieIs(n: nat, s: int)
    requires n == Abs(s) && 0 < n < 4 * TOP
    ensures FalseTie(s, false) <==> n >= 2 * TOP && n % 256 == 65
  {
    RaisedIs(n);
    if n >= TOP { assert Raised(n) == n; }
    FalseTieBits(Raised(n));
  }

  lemma FalseTieBits(m: nat)
    ensures m / 2 % 64 == 32 && m / 2 / 64 % 2 == 0 && m % 2 == 1 <==> m % 256 == 65
  {
    assert m == 256 * (m / 256) + m % 256;
    assert m / 2 == 128 * (m / 256) + m % 256 / 2;
    assert m / 2 / 64 == 2 * (m / 256) + m % 256 / 128;
  }

  /**
   * A sum of which alignment drops nothing is the nearest float, ties to even, unless it carries into bit 30 and the
   * eight lowest bits are 0100 0001: the carry drops the last bit and leaves what looks like a tie.
   */
  lemma ExactlyAlignedIff(a: nat, b: nat)
    requires Normal(a) && Normal(b) && NormalMagnitude(AbsR(Value(a) + Value(b)))
    requires Exp(b) <= Exp(a) <= Exp(b) + 25 && !Cuts(a, b)
    ensures var n := Abs(Aligned(a, b));
      NearestEven(AddWord(a, b), Value(a) + Value(b)) <==> !(n >= 2 * TOP && n % 256 == 65)
  {
    RoundsRightIff(a, b);
    AlignedFits(a, b);
    ZeroSum(a, b);
    ZeroIsNoNormal();
    FalseTieIs(Abs(Aligned(a, b)), Aligned(a, b));
  }

  /** Exponents five apart or less: always the nearest float, ties to even. */
  lemma CloseExponentsRoundRight(a: nat, b: nat)
    requires Normal(a) && Normal(b) && NormalMagnitude(AbsR(Value(a) + Value(b)))
    requires Exp(b) <= Exp(a) + 5 && Exp(a) <= Exp(b) + 5
    ensures NearestEven(AddWord(a, b), Value(a) + Value(b))
  {
    AddCommutes(a, b);
    if Exp(a) >= Exp(b) { EvenSum(a, b); ExactlyAlignedIff(a, b); } else { EvenSum(b, a); ExactlyAlignedIff(b, a); }
  }

  lemma EvenSum(a: nat, b: nat)
    requires Exp(b) <= Exp(a) <= Exp(b) + 5
    ensures !Cuts(a, b) && Abs(Aligned(a, b)) % 256 != 65
  {
    ShiftKeeps(b, Exp(a) - Exp(b));
    AlignedIs(a, b);
    EvenFactor(if Sign(a) == 0 then Mant(a) else 0 - Mant(a), 32, Widened(a));
    OddNeeded(Widened(a), Shifted(Widened(b), Exp(a) - Exp(b)));
  }

  lemma OddNeeded(x: int, y: int)
    requires x % 2 == 0 && y % 2 == 0
    ensures Abs(x + y) % 256 != 65
  {
  }

  /** 16777212 + 131073.015625 is 16908285.015625; the code answers 16908284, and 16908286 is a float too. */
  lemma CarryMisrounds()
    ensures var (a, b) := (0x4B7F_FFFC, 0x4800_0041);
      Value(a) + Value(b) == 16908285.015625 && AddWord(a, b) == 0x4B80_FFFE
      && Value(0x4B80_FFFE) == 16908284.0 && Value(0x4B80_FFFF) == 16908286.0
  {
    CarrySum(0x4B7F_FFFC, 0x4800_0041, 1082130241);
    PowersNearOne();
    NumberIs(0x4B7F_FFFC, 150, 0xFF_FFFC, 1.0);
    NumberIs(0x4800_0041, 144, 0x80_0041, 0.015625);
    NumberIs(0x4B80_FFFE, 151, 0x80_FFFE, 2.0);
    NumberIs(0x4B80_FFFF, 151, 0x80_FFFF, 2.0);
  }

  lemma PowersNearOne()
    ensures PowR(0) == 1.0 && PowR(1) == 2.0 && PowR(-6) == 0.015625
  {
    PowRStep(0);
    assert Halves(3) == 0.125 && Halves(6) == 0.125 * Halves(3);
  }

  lemma CarrySum(a: nat, b: nat, n: nat)
    requires a == 0x4B7F_FFFC && b == 0x4800_0041 && n == 1082130241
    ensures AddWord(a, b) == 0x4B80_FFFE
  {
    Unpack(0, 150, 0x7F_FFFC);
    PackIsSum(0, 150, 0x7F_FFFC);
    Unpack(0, 144, 0x41);
    PackIsSum(0, 144, 0x41);
    AddWordIs(a, b);
    SixBits();
    AlignedIs(a, b);
    CarryAligns(Widened(a), Widened(b), n);
    CarryRounds(n);
    PackIsSum(0, 151, 0xFFFE);
  }

  lemma CarryAligns(x: int, y: int, n: nat)
    requires x == 64 * 0xFF_FFFC && y == 64 * 0x80_0041 && n == 1082130241
    ensures x + y / 64 == n
  {
  }

  lemma CarryRounds(n: nat)
    requires n == 1082130241
    ensures SumExp(n, 150) == 151 && SumMant(n) % HIDDEN == 0xFFFE
  {
    assert Raised(n) == n && Doublings(n) == 0;
  }
}
