/** Which products are rounded to the nearest float, ties away from zero, and which are not. */
module SoftMultiplyRounding {
  import opened Words
  import opened Bits
  import opened Binary32
  import opened Rounding
  import opened SoftMultiply

  /** A product with the word 0 is the word 0, whatever the sign of the other operand. */
  lemma MulZero(x: nat)
    ensures MulWord(x, 0) == 0 && MulWord(0, x) == 0
  {
  }

  /** The bits that were dropped make up a count or more, and one count more would have rounded the other way. */
  predicate MissesCount(p: nat, c: nat) {
    c * 0x4_0000 + 0x4_0000 <= p && if c < 0x2000_0000 then c % 32 == 15 else c % 64 == 31
  }

  predicate Misrounded(a: nat, b: nat) { MissesCount(Mant(a) * Mant(b), Guarded(a, b)) }

  /** `r` units of `w` are `d` above the exact product: half a unit at most, and exactly half only from above. */
  predicate RoundedUp(r: nat, d: int, w: nat) { 0 - w < 2 * d <= w && (r == HIDDEN ==> 4 * d <= w) }

  /** The next float is as near or nearer. */
  predicate RoundedDown(d: int, w: nat) { w <= -2 * d < 2 * w }

  lemma RoundingIs(p: nat, c: nat, r: nat, m: nat, w: nat)
    requires 0x1000_0000 <= c < 0x4000_0000 && 0 <= 2 * (p - c * 0x4_0000) < 3 * 0x4_0000
    requires r == Rounded(c) && m == if r == 2 * HIDDEN then HIDDEN else r
    requires w == (if c < 0x2000_0000 then 1 else 2) * if r == 2 * HIDDEN then 0x100_0000 else 0x80_0000
    ensures if MissesCount(p, c) then RoundedDown(m * w - p, w) else RoundedUp(m, m * w - p, w)
  {
    var step := if c < 0x2000_0000 then 32 else 64;
    RoundedCounts(c, step, r);
    assert m * w == step * r * 0x4_0000;
    CountsIn(step, step * r - c, r, m, w, p - c * 0x4_0000, m * w - p);
  }

  /** Rounding adds between one less than half a unit, downwards, and half a unit. */
  lemma RoundedCounts(c: nat, step: nat, r: nat)
    requires 0x1000_0000 <= c < 0x4000_0000 && r == Rounded(c) && step == if c < 0x2000_0000 then 32 else 64
    ensures var t := step * r - c;
      && 1 - step / 2 <= t <= step / 2 && (t == 1 - step / 2 <==> c % step == step / 2 - 1)
      && (r == HIDDEN ==> t <= 0) && (r == 2 * HIDDEN ==> t > 0) && r <= 2 * HIDDEN
  {
  }

  lemma CountsIn(step: nat, t: int, r: nat, m: nat, w: nat, x: int, d: int)
    requires (step == 32 || step == 64) && 1 - step / 2 <= t <= step / 2 && 0 <= 2 * x < 3 * 0x4_0000
    requires m == (if r == 2 * HIDDEN then HIDDEN else r) && d == t * 0x4_0000 - x
    requires w == step * 0x4_0000 * (if r == 2 * HIDDEN then 2 else 1)
    requires (r == HIDDEN ==> t <= 0) && (r == 2 * HIDDEN ==> t > 0)
    ensures if t == 1 - step / 2 && x >= 0x4_0000 then RoundedDown(d, w) else RoundedUp(m, d, w)
  {
  }

  lemma ProductRounding(a: nat, b: nat, j: nat)
    requires var c := Guarded(a, b);
      j == (if c < 0x2000_0000 then 23 else 24) + if Rounded(c) == 2 * HIDDEN then 1 else 0
    ensures var (p, m, w) := (Mant(a) * Mant(b), ProductMant(a, b), Pow2(j));
      if Misrounded(a, b) then RoundedDown(m * w - p, w) else RoundedUp(m, m * w - p, w)
  {
    Powers();
    assert Pow2(25) == 0x200_0000;
    DroppedBits(Mant(a), Mant(b));
    RoundingIs(Mant(a) * Mant(b), Guarded(a, b), Rounded(Guarded(a, b)), ProductMant(a, b), Pow2(j));
  }

  /** A product of normal magnitude has the fields that were packed. */
  lemma ProductFields(a: nat, b: nat, q: real)
    requires Normal(a) && Normal(b) && NormalMagnitude(q)
    requires q == Times((Mant(a) * Mant(b)) as real, PowR(Exp(a) + Exp(b) - 300))
    ensures var r := MulWord(a, b);
      Normal(r) && Sign(r) == Xor(Sign(a), Sign(b)) && Exp(r) == ProductExp(a, b) && Mant(r) == ProductMant(a, b)
  {
    ProductIsNear(a, b);
    NearInRange(ProductMant(a, b), ProductExp(a, b), q);
    NotZero(a);
    NotZero(b);
    MulWordIs(a, b);
    PackWhole(Xor(Sign(a), Sign(b)), ProductExp(a, b), ProductMant(a, b));
  }

  /** A product of normal magnitude is the nearest float, ties away from zero, exactly when it is not misrounded. */
  lemma RoundsAwayIff(a: nat, b: nat)
    requires Normal(a) && Normal(b) && NormalMagnitude(AbsR(Value(a) * Value(b)))
    ensures NearestAway(MulWord(a, b), Value(a) * Value(b)) <==> !Misrounded(a, b)
  {
    var q := Times((Mant(a) * Mant(b)) as real, PowR(Exp(a) + Exp(b) - 300));
    ExactProduct(a, b);
    NotNegative(Mant(a), Mant(b), PowR(Exp(a) + Exp(b) - 300));
    ProductFields(a, b, q);
    var c := Guarded(a, b);
    var j := (if c < 0x2000_0000 then 23 else 24) + if Rounded(c) == 2 * HIDDEN then 1 else 0;
    ProductRounding(a, b, j);
    WordRounding(MulWord(a, b), ProductExp(a, b), q, Mant(a) * Mant(b), j, Exp(a) + Exp(b) - 300, Misrounded(a, b));
  }

  /** A word that was rounded in whole numbers of 2^x. */
  lemma WordRounding(r: nat, e: int, q: real, p: int, j: nat, x: int, bad: bool)
    requires Normal(r) && Exp(r) == e && e - 150 == x + j && q == Times(p as real, PowR(x)) && NormalMagnitude(q)
    requires var (d, w) := (Mant(r) * Pow2(j) - p, Pow2(j)); if bad then RoundedDown(d, w) else RoundedUp(Mant(r), d, w)
    ensures NearestAway(r, Signed(Sign(r), q)) <==> !bad
  {
    assert p * Pow2(0) == p;
    AboveScaled(r, e, Mant(r), q, p, 0, j, x);
    var d, w := Mant(r) * Pow2(j) - p, Pow2(j);
    if bad { DownIsNot(r, q, d, w, PowR(x)); } else { UpIsNearest(r, q, d, w, PowR(x)); }
  }

  lemma UpIsNearest(r: nat, q: real, d: int, w: nat, y: real)
    requires Above(r, q, d, w, y) && RoundedUp(Mant(r), d, w)
    ensures NearestAway(r, Signed(Sign(r), q))
  {
    Distances(d, w, y);
    RoundsAway(r, q);
  }

  lemma DownIsNot(r: nat, q: real, d: int, w: nat, y: real)
    requires Above(r, q, d, w, y) && RoundedDown(d, w) && NormalMagnitude(q)
    ensures !NearestAway(r, Signed(Sign(r), q))
  {
    Distances(d, w, y);
    if Mant(r) + 1 >= 2 * HIDDEN && Exp(r) >= 254 {
      NormalValue(r);
      assert false;
    }
    var z := NextIsNearer(r, q);
    assert Value(z) != Value(r);
  }

  /** The square of 8392156: the code answers 8395705 * 2^23, and 8395706 * 2^23 is nearer. */
  lemma SquareMisrounds()
    ensures var a := 0x4B00_0DDC;
      && MulWord(a, a) == 0x5680_1BB9 && Value(a) == 8392156.0
      && Value(0x5680_1BB9) == 70428278128640.0 && Value(0x5680_1BBA) == 70428286517248.0
      && Value(a) * Value(a) - Value(0x5680_1BB9) > Value(0x5680_1BBA) - Value(a) * Value(a) > 0.0
  {
    NumberIs(0x4B00_0DDC, 150, 8392156, 1.0);
    SquareGuarded(0x4B00_0DDC);
    PackIsSum(0, 173, 8395705 - HIDDEN);
    SmallPowers();
    NumberIs(0x5680_1BB9, 173, 8395705, 8388608.0);
    NumberIs(0x5680_1BBA, 173, 8395706, 8388608.0);
  }

  lemma SquareGuarded(a: nat)
    requires Exp(a) == 150 && Mant(a) == 8392156
    ensures ProductExp(a, a) == 173 && ProductMant(a, a) == 8395705
  {
    assert Parts(32781, 220, 32781, 220) / 4 == 268662575;
  }
}
