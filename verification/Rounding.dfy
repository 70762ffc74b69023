/** When a float is the nearest one to a real number, and which one a tie goes to. */
module Rounding {
  import opened Words
  import opened Bits
  import opened Binary32

  /** No finite float is nearer to `q`, and none is as near unless the fraction of `r` is even. */
  ghost predicate NearestEven(r: nat, q: real) {
    forall x: nat | Finite(x) && Value(x) != Value(r) ::
      AbsR(Value(x) - q) > AbsR(Value(r) - q) || (AbsR(Value(x) - q) == AbsR(Value(r) - q) && Mant(r) % 2 == 0)
  }

  /** No finite float is nearer to `q`, and none is as near unless it lies nearer to zero. */
  ghost predicate NearestAway(r: nat, q: real) {
    forall x: nat | Finite(x) && Value(x) != Value(r) ::
      AbsR(Value(x) - q) > AbsR(Value(r) - q)
      || (AbsR(Value(x) - q) == AbsR(Value(r) - q) && AbsR(Value(x)) < AbsR(Value(r)))
  }

  /** In steps of `y`, the magnitude of `r` is `d` above `q`, and a unit in its last place is `w`. */
  ghost predicate Above(r: nat, q: real, d: int, w: nat, y: real) {
    Normal(r) && 0.0 < y && Ulp(r) == Times(w as real, y) && Magnitude(r) - q == Times(d as real, y)
  }

  /** Steps and their sizes compare alike. */
  lemma Scales(i: int, y: real)
    requires 0.0 < y
    ensures (i > 0 <==> Times(i as real, y) > 0.0) && (i == 0 <==> Times(i as real, y) == 0.0)
  {
  }

  lemma Combined(i: int, d: int, w: nat, y: real)
    ensures Times((w - i * d) as real, y) == Times(w as real, y) - i as real * Times(d as real, y)
  {
    assert (i * d) as real == i as real * d as real;
  }

  /** How the distance compares with half and with a quarter of a unit. */
  lemma Distances(d: int, w: nat, y: real)
    requires 0.0 < y
    ensures var (u, e) := (Times(w as real, y), Times(d as real, y));
      && (2 * d < w <==> 2.0 * e < u) && (2 * d == w <==> 2.0 * e == u)
      && (-2 * d < w <==> -2.0 * e < u) && (-2 * d == w <==> -2.0 * e == u)
      && (4 * d < w <==> 4.0 * e < u) && (4 * d == w <==> 4.0 * e == u)
      && (d > 0 <==> e > 0.0) && (d == 0 <==> e == 0.0) && (d < w <==> e < u) && (0 - d < w <==> 0.0 - e < u)
  {
    Combined(2, d, w, y);
    Combined(-2, d, w, y);
    Combined(4, d, w, y);
    Combined(1, d, w, y);
    Combined(-1, d, w, y);
    Scales(w - 2 * d, y);
    Scales(w + 2 * d, y);
    Scales(w - 4 * d, y);
    Scales(w - d, y);
    Scales(w + d, y);
    Scales(d, y);
  }

  /** `e` is at most half a unit of `r`, and a quarter when the floats below `r` lie twice as close. */
  ghost predicate Close(r: nat, e: real) {
    -Ulp(r) <= 2.0 * e <= Ulp(r) && (Mant(r) == HIDDEN ==> 4.0 * e <= Ulp(r))
  }

  /** Two floats are as near. */
  ghost predicate Tie(r: nat, e: real) {
    2.0 * e == Ulp(r) || -2.0 * e == Ulp(r) || (Mant(r) == HIDDEN && 4.0 * e == Ulp(r))
  }

  /** A close float has no nearer one; one as near takes a tie and lies on the other side of `q`. */
  lemma NoneNearer(r: nat, q: real, x: nat)
    requires Normal(r) && Finite(x) && Value(x) != Value(r) && Close(r, Magnitude(r) - q)
    ensures var (near, far) := (AbsR(Value(r) - Signed(Sign(r), q)), AbsR(Value(x) - Signed(Sign(r), q)));
      && far >= near
      && (far == near ==> Tie(r, Magnitude(r) - q) && (Magnitude(r) > q ==> AbsR(Value(x)) < AbsR(Value(r))))
  {
    if Sign(x) == Sign(r) {
      GridSteps(r, x, Ulp(r));
      MantRange(r);
      SameSide(Magnitude(x), Magnitude(r), q, Ulp(r), Mant(r) == HIDDEN);
    } else {
      TwoUnits(r);
      OtherSide(Magnitude(x), Magnitude(r), q, Ulp(r));
    }
  }

  lemma TwoUnits(r: nat)
    requires Normal(r)
    ensures 2.0 * Ulp(r) <= Magnitude(r)
  {
    Grows(2.0, Significand(r) as real, Ulp(r));
  }

  /** Close, and a tie only with an even fraction. */
  lemma RoundsToEven(r: nat, q: real)
    requires Normal(r) && Close(r, Magnitude(r) - q) && (Tie(r, Magnitude(r) - q) ==> Mant(r) % 2 == 0)
    ensures NearestEven(r, Signed(Sign(r), q))
  {
    forall x: nat | Finite(x) && Value(x) != Value(r)
      ensures var v := Signed(Sign(r), q);
        AbsR(Value(x) - v) > AbsR(Value(r) - v) || (AbsR(Value(x) - v) == AbsR(Value(r) - v) && Mant(r) % 2 == 0)
    {
      NoneNearer(r, q, x);
    }
  }

  /** Close, and a tie only from below. */
  lemma RoundsAway(r: nat, q: real)
    requires Normal(r) && Close(r, Magnitude(r) - q) && (Tie(r, Magnitude(r) - q) ==> Magnitude(r) > q)
    ensures NearestAway(r, Signed(Sign(r), q))
  {
    forall x: nat | Finite(x) && Value(x) != Value(r)
      ensures var v := Signed(Sign(r), q);
        AbsR(Value(x) - v) > AbsR(Value(r) - v)
        || (AbsR(Value(x) - v) == AbsR(Value(r) - v) && AbsR(Value(x)) < AbsR(Value(r)))
    {
      NoneNearer(r, q, x);
    }
  }

  lemma SameSide(x: real, r: real, q: real, u: real, least: bool)
    requires 0.0 <= x && x != r && 0.0 < u && -u <= 2.0 * (r - q) <= u && (least ==> 4.0 * (r - q) <= u)
    requires x > r ==> x >= r + u
    requires x < r ==> x <= if least then r - u / 2.0 else r - u
    ensures AbsR(x - q) >= AbsR(r - q)
    ensures AbsR(x - q) == AbsR(r - q) ==>
      && (2.0 * (r - q) == u || -2.0 * (r - q) == u || (least && 4.0 * (r - q) == u))
      && (r > q ==> x < r) && (r < q ==> x > r)
  {
  }

  lemma OtherSide(x: real, r: real, q: real, u: real)
    requires 0.0 <= x && 0.0 < u && -u <= 2.0 * (r - q) <= u && 2.0 * u <= r
    ensures AbsR(-x - q) > AbsR(r - q)
  {
  }

  /** The next float away from zero. */
  lemma NextFloat(r: nat) returns (x: nat)
    requires Normal(r) && (Mant(r) + 1 < 2 * HIDDEN || Exp(r) < 254)
    ensures Finite(x) && Value(x) == Signed(Sign(r), Magnitude(r) + Ulp(r))
  {
    MantRange(r);
    NormalValue(r);
    OneUnit(Mant(r), Ulp(r));
    if Mant(r) + 1 < 2 * HIDDEN {
      x := Pack(Sign(r), Exp(r), Mant(r) + 1 - HIDDEN);
      PackedValue(Sign(r), Exp(r), Mant(r) + 1);
    } else {
      x := Pack(Sign(r), Exp(r) + 1, 0);
      PackedValue(Sign(r), Exp(r) + 1, HIDDEN);
      PowRStep(Exp(r) - 150);
      TwiceHidden(Ulp(r), PowR(Exp(r) + 1 - 150));
    }
  }

  lemma TwiceHidden(u: real, v: real)
    requires v == 2.0 * u
    ensures Times(8388608.0, v) == Times(16777216.0, u)
  {
  }

  /** Rounding up to the next float would have been nearer, or as near and farther from zero. */
  lemma NextIsNearer(r: nat, q: real) returns (x: nat)
    requires Normal(r) && (Mant(r) + 1 < 2 * HIDDEN || Exp(r) < 254)
    requires Ulp(r) <= 2.0 * (q - Magnitude(r)) < 2.0 * Ulp(r)
    ensures Finite(x) && AbsR(Value(x)) > AbsR(Value(r))
    ensures var v := Signed(Sign(r), q);
      AbsR(Value(x) - v) <= AbsR(Value(r) - v)
      && (Ulp(r) < 2.0 * (q - Magnitude(r)) ==> AbsR(Value(x) - v) < AbsR(Value(r) - v))
  {
    x := NextFloat(r);
    UpTo(Sign(r), Magnitude(r), q, Ulp(r));
  }

  lemma UpTo(s: nat, r: real, q: real, u: real)
    requires 0.0 <= r && u <= 2.0 * (q - r) < 2.0 * u
    ensures AbsR(Signed(s, r + u)) > AbsR(Signed(s, r))
    ensures AbsR(Signed(s, r + u) - Signed(s, q)) <= AbsR(Signed(s, r) - Signed(s, q))
    ensures u < 2.0 * (q - r) ==> AbsR(Signed(s, r + u) - Signed(s, q)) < AbsR(Signed(s, r) - Signed(s, q))
  {
  }

  lemma Nearer(s: nat, x: real, r: real, q: real)
    requires x < q && 2.0 * q < x + r
    ensures AbsR(Signed(s, x) - Signed(s, q)) < AbsR(Signed(s, r) - Signed(s, q))
  {
  }

  lemma OneUnit(m: nat, u: real)
    ensures Times((m + 1) as real, u) == Times(m as real, u) + u
  {
  }

  /** Rounding down to the float before would have been nearer. */
  lemma LastIsNearer(r: nat, q: real) returns (x: nat)
    requires Normal(r) && (if Mant(r) == HIDDEN then 2 <= Exp(r) && Ulp(r) < 4.0 * (Magnitude(r) - q) < 2.0 * Ulp(r)
                           else Ulp(r) < 2.0 * (Magnitude(r) - q) < 2.0 * Ulp(r))
    ensures Finite(x) && AbsR(Value(x) - Signed(Sign(r), q)) < AbsR(Value(r) - Signed(Sign(r), q))
  {
    MantRange(r);
    NormalValue(r);
    if Mant(r) == HIDDEN {
      x := Pack(Sign(r), Exp(r) - 1, 2 * HIDDEN - 1 - HIDDEN);
      PackedValue(Sign(r), Exp(r) - 1, 2 * HIDDEN - 1);
      PowRStep(Exp(r) - 1 - 150);
      HalfUnit(Ulp(r), PowR(Exp(r) - 1 - 150));
      Nearer(Sign(r), Magnitude(r) - Ulp(r) / 2.0, Magnitude(r), q);
    } else {
      x := Pack(Sign(r), Exp(r), Mant(r) - 1 - HIDDEN);
      PackedValue(Sign(r), Exp(r), Mant(r) - 1);
      OneUnit(Mant(r) - 1, Ulp(r));
      Nearer(Sign(r), Magnitude(r) - Ulp(r), Magnitude(r), q);
    }
  }

  lemma HalfUnit(u: real, v: real)
    requires u == 2.0 * v
    ensures Times(16777215.0, v) == Times(8388608.0, u) - u / 2.0
  {
  }

  /** A positive word whose fields are known. */
  lemma NumberIs(l: nat, e: nat, m: nat, u: real)
    requires 1 <= e <= 254 && HIDDEN <= m < 2 * HIDDEN && l == e * HIDDEN + (m - HIDDEN) && u == PowR(e - 150)
    ensures Normal(l) && Exp(l) == e && Mant(l) == m && Sign(l) == 0 && Value(l) == m as real * u
  {
    PackIsSum(0, e, m - HIDDEN);
    PackedValue(0, e, m);
  }

  /** A value counted in 2^x, and a float with a unit of 2^(j-i) of those. */
  lemma AboveScaled(r: nat, e: int, m: nat, q: real, p: int, i: nat, j: nat, x: int)
    requires Normal(r) && Exp(r) == e && Mant(r) == m && e - 150 + i == x + j && q == Times(p as real, PowR(x))
    ensures Above(r, q, m * Pow2(j) - p * Pow2(i), Pow2(j), PowR(x - i))
  {
    var y := x - i;
    PowRAdds(y, j);
    PowRAdds(y, i);
    PowRIsPow2(j);
    PowRIsPow2(i);
    MoreUnits(p, Pow2(i), PowR(y), PowR(x));
    InSteps(m, PowR(e - 150), q, p * Pow2(i), Pow2(j), PowR(y));
    NormalValue(r);
  }

  lemma InSteps(m: nat, u: real, q: real, p: int, w: nat, y: real)
    requires u == Times(y, w as real) && q == Times(p as real, y)
    ensures u == Times(w as real, y) && Times(m as real, u) - q == Times((m * w - p) as real, y)
  {
    assert (m * w - p) as real == m as real * w as real - p as real;
    Counted(m as real, w as real, p as real, y, u, q, (m * w - p) as real);
  }
}
