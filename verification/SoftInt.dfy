/** Multiplication and division by shifting (bare-metal-apps/lib/libc.c): words are naturals below 2^32 or 2^64,
    signed values are converted at the borders, in two's complement. */
module SoftInt {
  import opened Bits
  import opened Words

  // ---------------------------------------------------------------- words

  /** The signed value of an `n`-value word. */
  function Signed(x: int, n: int): int
    requires n > 0
  {
    if x % n < n / 2 then x % n else x % n - n
  }

  lemma ModDrop(x: int, k: int, n: int)
    requires 1 <= n
    ensures (x + n * k) % n == x % n
  {
    var q := x / n;
    assert x == n * q + x % n;
    assert x + n * k == n * (q + k) + x % n;
    Divided(x + n * k, n, q + k, x % n);
  }

  /** A summand and a factor may be reduced first. */
  lemma ModSum(x: int, y: int, n: int)
    requires 1 <= n
    ensures (x % n + y) % n == (x + y) % n
  {
    ModDrop(x % n + y, x / n, n);
    assert x == n * (x / n) + x % n;
  }

  lemma ModProduct(x: int, y: int, n: int)
    requires 1 <= n
    ensures (x % n * y) % n == (x * y) % n
  {
    assert x == n * (x / n) + x % n;
    assert x * y == x % n * y + n * (x / n * y) by {
      assert (n * (x / n)) * y == n * (x / n * y);
    }
    ModDrop(x % n * y, x / n * y, n);
  }

  // ---------------------------------------------------------------- multiplication

  /** `__mulsi3`. The ghosts are the same sums and shifts without wrap-around. */
  method MulSi3(a0: nat, b0: nat) returns (answer: nat)
    requires a0 < WORD && b0 < WORD
    ensures answer == a0 * b0 % WORD
  {
    var a, b := a0, b0;
    answer := 0;
    ghost var shifted: nat, sum: nat := a0, 0;
    while b != 0
      invariant a == shifted % WORD && answer == sum % WORD && sum + shifted * b == a0 * b0
      decreases b
    {
      OddPart(shifted, b);
      LowBit(b);
      if And(b, 1) != 0 {
        ModSum(sum, a, WORD);
        ModSum(shifted, sum, WORD);
        answer := (answer + a) % WORD;
        sum := sum + shifted;
      }
      ModProduct(shifted, 2, WORD);
      a := a * 2 % WORD;
      shifted := shifted * 2;
      b := b / 2;
    }
  }

  lemma LowBit(b: nat)
    ensures And(b, 1) == b % 2
  {
    AndBit(b, 0);
  }

  lemma OddPart(a: nat, b: nat)
    ensures a * b == a * 2 * (b / 2) + if b % 2 == 1 then a else 0
  {
    assert a * b == a * (2 * (b / 2) + b % 2) == a * (2 * (b / 2)) + a * (b % 2);
    assert a * (2 * (b / 2)) == a * 2 * (b / 2);
  }

  /** `__muldsi3`: the result is given by its two words. */
  method MulDSi3(a: nat, b: nat) returns (low: nat, high: nat)
    requires a < WORD && b < WORD
    ensures low < WORD && high < WORD && high * WORD + low == a * b
  {
    var al := LowHalf(a);
    var bl := LowHalf(b);
    var ah, bh := a / 0x1_0000, b / 0x1_0000;
    HalfProducts(al, ah, bl, bh);
    Distribute(al, ah, bl, bh);
    low, high := AddProducts(al * bl, ah * bl, bh * al, ah * bh);
    WholeBelow(a, b, low, high);
  }

  /** Lines 658-669, on the half-word products, in 32-bit arithmetic. */
  method AddProducts(ll: nat, hl: nat, lh: nat, hh: nat) returns (low: nat, high: nat)
    requires ll <= 0xFFFE_0001 && hl <= 0xFFFE_0001 && lh <= 0xFFFE_0001 && hh <= 0xFFFE_0001
    ensures low < WORD && high < WORD && high * WORD + low == hh * WORD + (hl + lh) * 0x1_0000 + ll
  {
    SumsFit(ll, hl, lh, hh);
    SumsAddUp(ll, hl, lh, hh);
    ghost var ss := Sums(ll, hl, lh, hh);
    low := ll;
    var t := low / 0x1_0000;
    low := LowHalf(low);
    t := Plus(t, hl, ss[0]);
    var half := LowHalf(t);
    low := Plus(low, half * 0x1_0000, ss[1]);
    high := t / 0x1_0000;
    t := low / 0x1_0000;
    low := LowHalf(low);
    t := Plus(t, lh, ss[2]);
    half := LowHalf(t);
    low := Plus(low, half * 0x1_0000, ss[3]);
    high := Plus(high, t / 0x1_0000, high + t / 0x1_0000);
    high := Plus(high, hh, ss[4]);
  }

  /** A 32-bit addition that the caller knows not to wrap. */
  method Plus(x: nat, y: nat, ghost sum: nat) returns (r: nat)
    requires sum == x + y < WORD
    ensures r == sum
  {
    r := (x + y) % WORD;
  }

  lemma SumsAddUp(ll: nat, hl: nat, lh: nat, hh: nat)
    ensures var ss := Sums(ll, hl, lh, hh);
      ss[4] * WORD + ss[3] == hh * WORD + (hl + lh) * 0x1_0000 + ll
  {
  }

  /** The sums __muldsi3 forms of the half-word products, in its order, without wrap-around. */
  function Sums(ll: nat, hl: nat, lh: nat, hh: nat): seq<nat> {
    var t := ll / 0x1_0000 + hl;
    var low := ll % 0x1_0000 + t % 0x1_0000 * 0x1_0000;
    var u := low / 0x1_0000 + lh;
    [t, low, u, low % 0x1_0000 + u % 0x1_0000 * 0x1_0000, t / 0x1_0000 + u / 0x1_0000 + hh]
  }

  lemma SumsFit(ll: nat, hl: nat, lh: nat, hh: nat)
    requires ll <= 0xFFFE_0001 && hl <= 0xFFFE_0001 && lh <= 0xFFFE_0001 && hh <= 0xFFFE_0001
    ensures forall s :: s in Sums(ll, hl, lh, hh) ==> s < WORD
  {
    var ss := Sums(ll, hl, lh, hh);
    assert ss[0] < WORD && ss[1] < WORD && ss[2] < WORD && ss[3] < WORD && ss[4] < WORD;
  }

  /** No half-word product and no sum of them leaves 32 bits. */
  lemma NothingWraps(a: nat, b: nat)
    requires a < WORD && b < WORD
    ensures var (al, ah, bl, bh) := (a % 0x1_0000, a / 0x1_0000, b % 0x1_0000, b / 0x1_0000);
      && al * bl < WORD && ah * bl < WORD && bh * al < WORD && ah * bh < WORD
      && forall s :: s in Sums(al * bl, ah * bl, bh * al, ah * bh) ==> s < WORD
  {
    var (al, ah, bl, bh) := (a % 0x1_0000, a / 0x1_0000, b % 0x1_0000, b / 0x1_0000);
    HalfProducts(al, ah, bl, bh);
    SumsFit(al * bl, ah * bl, bh * al, ah * bh);
  }

  method LowHalf(x: nat) returns (h: nat)
    ensures h == x % 0x1_0000
  {
    HalfWord(x);
    h := And(x, 0xFFFF);
  }

  lemma HalfWord(x: nat)
    ensures And(x, 0xFFFF) == x % 0x1_0000
  {
    assert Pow2(4) == 16;
    Pow2Adds(4, 4);
    Pow2Adds(8, 8);
    AndLowMask(x, 16);
  }

  lemma HalfProducts(al: nat, ah: nat, bl: nat, bh: nat)
    requires al < 0x1_0000 && ah < 0x1_0000 && bl < 0x1_0000 && bh < 0x1_0000
    ensures al * bl <= 0xFFFE_0001 && ah * bl <= 0xFFFE_0001 && bh * al <= 0xFFFE_0001 && ah * bh <= 0xFFFE_0001
  {
    ProductBelow(al, bl);
    ProductBelow(ah, bl);
    ProductBelow(bh, al);
    ProductBelow(ah, bh);
  }

  lemma ProductBelow(x: nat, y: nat)
    requires x <= 0xFFFF && y <= 0xFFFF
    ensures x * y <= 0xFFFE_0001
  {
    MulMono(x, y, 0xFFFF);
  }

  lemma Distribute(al: nat, ah: nat, bl: nat, bh: nat)
    ensures (ah * 0x1_0000 + al) * (bh * 0x1_0000 + bl) == ah * bh * WORD + (ah * bl + bh * al) * 0x1_0000 + al * bl
  {
    assert (ah * 0x1_0000 + al) * (bh * 0x1_0000 + bl)
        == ah * 0x1_0000 * (bh * 0x1_0000) + ah * 0x1_0000 * bl + al * (bh * 0x1_0000) + al * bl;
  }

  lemma MulMono(a: nat, b: nat, c: nat)
    requires b <= c
    ensures a * b <= a * c
  {
    assert a * c == a * b + a * (c - b);
  }

  lemma WholeBelow(a: nat, b: nat, low: nat, high: nat)
    requires a < WORD && b < WORD && high * WORD + low == a * b
    ensures high < WORD
  {
    MulMono(a, b, WORD - 1);
  }

  /** `__muldi3`, word by word: the low words exactly, the mixed products into the high word. */
  method MulDi3(xl: nat, xh: nat, yl: nat, yh: nat) returns (low: nat, high: nat)
    requires xl < WORD && xh < WORD && yl < WORD && yh < WORD
    ensures low < WORD && high < WORD && high * WORD + low == (xh * WORD + xl) * (yh * WORD + yl) % DWORD
  {
    var h;
    low, h := MulDSi3(xl, yl);
    var m1 := MulSi3(xh, yl);
    var m2 := MulSi3(xl, yh);
    high := (h + (m1 + m2) % WORD) % WORD;
    MixedProducts(xl, xh, yl, yh, low, h, high);
  }

  lemma MixedProducts(xl: nat, xh: nat, yl: nat, yh: nat, low: nat, h: nat, high: nat)
    requires low < WORD && h * WORD + low == xl * yl
    requires high == (h + (xh * yl % WORD + xl * yh % WORD) % WORD) % WORD
    ensures high * WORD + low == (xh * WORD + xl) * (yh * WORD + yl) % DWORD
  {
    var m1, m2 := xh * yl, xl * yh;
    ModSum(m1, m2 % WORD, WORD);
    ModSum(m2, m1, WORD);
    ModSum(m1 + m2, h, WORD);
    var t := h + m1 + m2;
    assert high == t % WORD;
    var q := t / WORD + xh * yh;
    assert t == WORD * (t / WORD) + t % WORD;
    DistributeWords(xl, xh, yl, yh);
    assert (xh * WORD + xl) * (yh * WORD + yl) == DWORD * q + (high * WORD + low);
    Divided((xh * WORD + xl) * (yh * WORD + yl), DWORD, q, high * WORD + low);
  }

  lemma DistributeWords(xl: nat, xh: nat, yl: nat, yh: nat)
    ensures (xh * WORD + xl) * (yh * WORD + yl) == xh * yh * DWORD + (xh * yl + xl * yh) * WORD + xl * yl
  {
    assert (xh * WORD + xl) * (yh * WORD + yl)
        == xh * WORD * (yh * WORD) + xh * WORD * yl + xl * (yh * WORD) + xl * yl;
  }

  /** Two's complement: the low words of the factors' products are the words of the signed product. */
  lemma SignedProduct(a: int, b: int)
    ensures (a % DWORD) * (b % DWORD) % DWORD == a * b % DWORD
  {
    ModProduct(a, b % DWORD, DWORD);
    ModProduct(b, a, DWORD);
    assert a * (b % DWORD) == b % DWORD * a && b * a == a * b;
  }

  // ---------------------------------------------------------------- unsigned division

  /** `__udivmodsi4`. A zero divisor is not trapped: the quotient is then 1 for 0 and 0 for anything else,
      the remainder the dividend. */
  method UDivModSi4(num0: nat, den0: nat, modwanted: bool) returns (r: nat)
    requires num0 < WORD && den0 < WORD
    ensures den0 != 0 ==> r == if modwanted then num0 % den0 else num0 / den0
    ensures den0 == 0 ==> r == if modwanted then num0 else if num0 == 0 then 1 else 0
  {
    var den, bit, k := ShiftUp(num0, den0);
    var num, res := SubtractShifted(num0, den0, den, bit, k);
    if den0 != 0 { Divided(num0, den0, res, num); }
    r := if modwanted then num else res;
  }

  /** Lines 688-694: a zero divisor shifts the bit out unless the dividend is zero too. */
  method ShiftUp(num: nat, den0: nat) returns (den: nat, bit: nat, ghost k: nat)
    requires num < WORD && den0 < WORD
    ensures den0 != 0 ==> bit == Pow2(k) && den == den0 * Pow2(k) && num < 2 * den
    ensures den0 == 0 ==> den == 0 && bit == if num == 0 then 1 else 0
  {
    den, bit, k := den0, 1, 0;
    assert Pow2(0) == 1;
    while den < num && bit != 0 && And(den, 0x8000_0000) == 0
      invariant k > 0 ==> num > 0
      invariant Shifted(den0, k, den, bit)
      decreases 33 - k
    {
      TopBit(den);
      ShiftOnce(den0, k, den, bit);
      den := den * 2 % WORD;
      bit := bit * 2 % WORD;
      k := k + 1;
    }
    TopBit(den);
    NothingShifted(den0, k, den, bit);
  }

  /** Divisor and bit after `k` shifts; only a zero divisor lets the bit out. */
  ghost predicate Shifted(den0: nat, k: nat, den: nat, bit: nat) {
    && (if bit == 0 then k == 32 && den0 == 0 else k < 32 && bit == Pow2(k))
    && den < WORD && den == den0 * Pow2(k)
  }

  lemma ShiftOnce(den0: nat, k: nat, den: nat, bit: nat)
    requires Shifted(den0, k, den, bit) && bit != 0 && den < 0x8000_0000
    ensures Shifted(den0, k + 1, den * 2 % WORD, bit * 2 % WORD) && k < 32
  {
    PowerBelow(k);
    PowersToTop();
    DoublePower(den0, k);
    NotBelow(den0, Pow2(k));
  }

  lemma NotBelow(d: nat, p: nat)
    ensures d != 0 ==> d * p >= p
    ensures d == 0 ==> d * p == 0
  {
  }

  lemma NothingShifted(den0: nat, k: nat, den: nat, bit: nat)
    requires Shifted(den0, k, den, bit)
    ensures den0 == 0 ==> den == 0
    ensures den0 != 0 ==> bit == Pow2(k) && bit != 0
  {
  }

  lemma DoublePower(d: nat, k: nat)
    ensures d * Pow2(k) * 2 == d * Pow2(k + 1)
  {
  }

  lemma TopBit(x: nat)
    requires x < WORD
    ensures And(x, 0x8000_0000) == 0 <==> x < 0x8000_0000
  {
    PowersToTop();
    TestTopBit(x, 31, 0x8000_0000);
  }

  lemma Pow2Of32()
    ensures Pow2(32) == WORD
  {
    assert Pow2(4) == 16;
    Pow2Adds(4, 4);
    Pow2Adds(8, 8);
    Pow2Adds(16, 16);
  }

  lemma PowersToTop()
    ensures Pow2(31) == 0x8000_0000 && Pow2(32) == WORD
  {
    Pow2Of32();
    assert Pow2(32) == 2 * Pow2(31);
  }

  lemma PowerBelow(k: nat)
    requires k < 32
    ensures Pow2(k) <= 0x8000_0000 && (Pow2(k) == 0x8000_0000 <==> k == 31)
  {
    PowersToTop();
    if k < 31 { Pow2Rises(k, 30); }
  }

  /** The quotient so far and what is left to divide, when `j` bits of the quotient are still open. */
  ghost predicate Dividing(num0: nat, den0: nat, j: nat, num: nat, res: nat) {
    num0 == res * den0 + num && res % Pow2(j) == 0 && num < den0 * Pow2(j)
  }

  lemma DivideBit(num0: nat, den0: nat, j: nat, num: nat, res: nat)
    requires 1 <= j && Dividing(num0, den0, j, num, res)
    ensures var (bit, den) := (Pow2(j - 1), den0 * Pow2(j - 1));
      if num >= den then Or(res, bit) == res + bit && Dividing(num0, den0, j - 1, num - den, res + bit)
      else Dividing(num0, den0, j - 1, num, res)
  {
    var bit, p := Pow2(j - 1), den0 * Pow2(j - 1);
    assert den0 * Pow2(j) == 2 * p;
    OrDisjoint(res, bit, j);
    assert (res + bit) * den0 == res * den0 + p;
    EvenMultiple(res, bit);
  }

  lemma EvenMultiple(res: nat, p: nat)
    requires 1 <= p && res % (2 * p) == 0
    ensures res % p == 0 && (res + p) % p == 0
  {
    var q := res / (2 * p);
    assert res == 2 * p * q == p * (2 * q);
    assert res + p == p * (2 * q + 1);
    Divided(res, p, 2 * q, 0);
    Divided(res + p, p, 2 * q + 1, 0);
  }

  lemma HalfPower(den0: nat, j: nat)
    ensures Pow2(j) / 2 == if j == 0 then 0 else Pow2(j - 1)
    ensures j > 0 ==> den0 * Pow2(j) / 2 == den0 * Pow2(j - 1)
  {
    if j > 0 { assert den0 * Pow2(j) == 2 * (den0 * Pow2(j - 1)); }
  }

  /** Lines 695-702: `top` is 2^n and `shifted` is `den0` shifted by as much. A zero divisor is subtracted once
      from 0 and never from anything else. */
  method SubtractShifted(num0: nat, ghost den0: nat, shifted: nat, top: nat, ghost n: nat) returns (num: nat, res: nat)
    requires den0 != 0 ==> top == Pow2(n) && shifted == den0 * Pow2(n) && num0 < 2 * shifted
    requires den0 == 0 ==> shifted == 0 && top == if num0 == 0 then 1 else 0
    ensures den0 != 0 ==> num0 == res * den0 + num && num < den0
    ensures den0 == 0 ==> num == num0 && res == top
  {
    num, res := num0, 0;
    var den, bit := shifted, top;
    ghost var j: nat := n + 1;
    while bit != 0
      invariant den0 != 0 ==> Dividing(num0, den0, j, num, res)
      invariant den0 != 0 ==> if j == 0 then bit == 0 else bit == Pow2(j - 1) && den == den0 * Pow2(j - 1)
      invariant den0 == 0 ==> den == 0 && num == num0 && (if bit == 0 then res == top else bit == top && res == 0)
      decreases bit
    {
      if den0 != 0 {
        DivideBit(num0, den0, j, num, res);
        HalfPower(den0, j - 1);
      }
      if num >= den {
        num := num - den;
        res := Or(res, bit);
      }
      bit := bit / 2;
      den := den / 2;
      j := if j == 0 then 0 else j - 1;
    }
  }

  /** `__udivmoddi4`: for a zero divisor the code divides 1 by 0. C leaves that undefined and the guests are built
      without the trap, so `oneOverZero` stands for what the processor makes of it; `*rem_p`, first `rem0`, stays. */
  method UDivModDi4(num0: nat, den0: nat, oneOverZero: nat, rem0: nat) returns (quot: nat, rem: nat)
    requires num0 < DWORD && den0 < DWORD
    ensures den0 != 0 ==> quot == num0 / den0 && rem == num0 % den0
    ensures den0 == 0 ==> quot == oneOverZero && rem == rem0
  {
    if den0 == 0 { return oneOverZero, rem0; }
    var den: nat, qbit: nat := den0, 1;
    ghost var k: nat := 0;
    assert Pow2(0) == 1;
    while den < DWORD / 2
      invariant den < DWORD && LongShifted(den0, k, den, qbit)
      decreases DWORD - den
    {
      ShiftLong(den0, k, den, qbit);
      den := den * 2 % DWORD;
      qbit := qbit * 2 % DWORD;
      k := k + 1;
    }
    rem, quot := SubtractShifted64(num0, den0, den, qbit, k);
    Divided(num0, den0, quot, rem);
  }

  ghost predicate LongShifted(den0: nat, k: nat, den: nat, qbit: nat) {
    den == den0 * Pow2(k) && qbit == Pow2(k) && qbit <= den
  }

  lemma ShiftLong(den0: nat, k: nat, den: nat, qbit: nat)
    requires LongShifted(den0, k, den, qbit) && den < DWORD / 2
    ensures LongShifted(den0, k + 1, den * 2 % DWORD, qbit * 2 % DWORD) && den < den * 2 % DWORD
  {
    DoublePower(den0, k);
  }

  /** Lines 840-847; here the bit is added, not or-ed. */
  method SubtractShifted64(num0: nat, ghost den0: nat, shifted: nat, top: nat, ghost n: nat)
      returns (num: nat, quot: nat)
    requires top == Pow2(n) && shifted == den0 * Pow2(n) && num0 < 2 * shifted
    ensures num0 == quot * den0 + num && num < den0
  {
    num, quot := num0, 0;
    var den, qbit := shifted, top;
    ghost var j: nat := n + 1;
    while qbit != 0
      invariant Dividing(num0, den0, j, num, quot)
      invariant if j == 0 then qbit == 0 else qbit == Pow2(j - 1) && den == den0 * Pow2(j - 1)
      decreases qbit
    {
      DivideBit(num0, den0, j, num, quot);
      if den <= num {
        num := num - den;
        quot := quot + qbit;
      }
      HalfPower(den0, j - 1);
      den := den / 2;
      qbit := qbit / 2;
      j := j - 1;
    }
  }

  // ---------------------------------------------------------------- signed division

  /** C's division: toward zero, the remainder with the sign of the dividend. */
  function TruncDiv(a: int, b: int): int
    requires b != 0
  {
    if (a < 0) == (b < 0) then Abs(a) / Abs(b) else -(Abs(a) / Abs(b))
  }

  function TruncMod(a: int, b: int): int
    requires b != 0
  {
    if a < 0 then -(Abs(a) % Abs(b)) else Abs(a) % Abs(b)
  }

  /** Quotient and remainder of C belong together. */
  lemma TruncIdentity(a: int, b: int)
    requires b != 0
    ensures a == TruncDiv(a, b) * b + TruncMod(a, b)
    ensures Abs(TruncMod(a, b)) < Abs(b) && (TruncMod(a, b) == 0 || (TruncMod(a, b) < 0 <==> a < 0))
  {
    Recomposed(Abs(a), Abs(b));
    Signs(Abs(a) / Abs(b), Abs(a) % Abs(b), a, b, TruncDiv(a, b), TruncMod(a, b));
  }

  lemma Recomposed(n: nat, d: nat)
    requires 1 <= d
    ensures n == Product(n / d, d) + n % d && n % d < d
  {
    ProductIs(n / d, d);
  }

  lemma Signs(q: nat, r: nat, a: int, b: int, p: int, s: int)
    requires b != 0 && Abs(a) == Product(q, Abs(b)) + r && r < Abs(b)
    requires p == (if (a < 0) == (b < 0) then q else 0 - q) && s == if a < 0 then 0 - r else r
    ensures a == p * b + s && Abs(s) < Abs(b) && (s == 0 || (s < 0 <==> a < 0))
  {
    ProductIs(q, Abs(b));
    var c := q * b;
    assert (0 - q) * b == -c;
    assert q * Abs(b) == if b < 0 then -c else c;
  }

  /** And nothing else does. */
  lemma TruncIsUnique(a: int, b: int, q: int, r: int)
    requires b != 0 && a == q * b + r && Abs(r) < Abs(b) && (r == 0 || (r < 0 <==> a < 0))
    ensures q == TruncDiv(a, b) && r == TruncMod(a, b)
  {
    TruncIdentity(a, b);
    SameQuotient(b, q, r, TruncDiv(a, b), TruncMod(a, b));
  }

  lemma SameQuotient(b: int, q: int, r: int, p: int, s: int)
    requires q * b + r == p * b + s && 0 - Abs(b) < s - r < Abs(b)
    ensures q == p && r == s
  {
    var d := q - p;
    assert d * b == s - r;
    if b < 0 {
      assert -b * -d == d * b;
      SmallMultiple(-b, -d);
    } else {
      assert b * d == d * b;
      SmallMultiple(b, d);
    }
  }

  /** `-x` in `n`-value two's complement. */
  function Negate(x: int, n: int): int
    requires n > 0
  {
    Signed(-x, n)
  }

  /** The word of |a|, even for the value without a positive counterpart. */
  lemma Magnitude(a: int, h: nat)
    requires 1 <= h && 0 - h <= a < h
    ensures (if a < 0 then Negate(a, 2 * h) else a) % (2 * h) == Abs(a)
  {
    SignedIsCongruent(-a, 2 * h);
    SmallMod(Abs(a), 2 * h);
  }

  lemma SmallMod(a: nat, n: nat)
    requires a < n
    ensures a % n == a
  {
    Divided(a, n, 0, a);
  }

  lemma SignedIsCongruent(x: int, n: nat)
    requires n > 0
    ensures Signed(x, n) % n == x % n
  {
    SmallMod(x % n, n);
    ModDrop(x % n, -1, n);
  }

  /** Giving the sign back to a magnitude of at most 2^31 or 2^63. */
  lemma SignBack(q: nat, neg: bool, h: nat)
    requires q <= h && 1 <= h
    ensures var v := Signed(q, 2 * h);
      (if neg then Negate(v, 2 * h) else v) == if neg || q == h then 0 - q else q
  {
    SmallMod(q, 2 * h);
    if q > 0 {
      Divided(0 - q, 2 * h, -1, 2 * h - q);
      SmallMod(h, 2 * h);
    }
  }

  lemma QuotientFits(a: nat, b: nat)
    requires 1 <= b
    ensures a / b <= a && (a / b == a <==> a == 0 || b == 1)
    ensures a % b <= a && a % b < b
  {
    var q := a / b;
    assert a == b * q + a % b;
    if b >= 2 && q >= 1 { assert b * q >= 2 * q; }
    if b == 1 { assert b * q == q; }
  }

  /** `__divsi3`: truncates, and wraps only where the quotient does not fit. */
  method DivSi3(a0: int, b0: int) returns (res: int)
    requires Int32(a0) && Int32(b0)
    ensures b0 != 0 ==> res == if a0 == -0x8000_0000 && b0 == -1 then -0x8000_0000 else TruncDiv(a0, b0)
  {
    var a, b, neg := a0, b0, false;
    if a < 0 {
      a := Negate(a, WORD);
      neg := !neg;
    }
    if b < 0 {
      b := Negate(b, WORD);
      neg := !neg;
    }
    Magnitude(a0, WORD / 2);
    Magnitude(b0, WORD / 2);
    var n, d := a % WORD, b % WORD;
    var r := UDivModSi4(n, d, false);
    res := Signed(r, WORD);
    if neg { res := Negate(res, WORD); }
    if b0 != 0 {
      QuotientFits(n, d);
      SignBack(r, neg, WORD / 2);
    }
  }

  /** `__modsi3`. */
  method ModSi3(a0: int, b0: int) returns (res: int)
    requires Int32(a0) && Int32(b0)
    ensures b0 != 0 ==> res == TruncMod(a0, b0)
  {
    var a, b, neg := a0, b0, false;
    if a < 0 {
      a := Negate(a, WORD);
      neg := true;
    }
    if b < 0 { b := Negate(b, WORD); }
    Magnitude(a0, WORD / 2);
    Magnitude(b0, WORD / 2);
    var n, d := a % WORD, b % WORD;
    var r := UDivModSi4(n, d, true);
    res := Signed(r, WORD);
    if neg { res := Negate(res, WORD); }
    if b0 != 0 {
      QuotientFits(n, d);
      SignBack(r, neg, WORD / 2);
    }
  }

  /** What `__divdi3` and `__moddi3` return. */
  function LongQuotient(num: int, den: int): int
    requires den != 0
  {
    if num == -0x8000_0000_0000_0000 && den == -1 then num else TruncDiv(num, den)
  }

  function LongRemainder(num: int, den: int): int
    requires den != 0
  {
    if den < 0 then -TruncMod(num, den) else TruncMod(num, den)
  }

  /** `__divdi3`: truncates, and wraps only where the quotient does not fit. */
  method DivDi3(num0: int, den0: int, oneOverZero: nat) returns (v: int)
    requires Int64(num0) && Int64(den0)
    ensures den0 != 0 ==> v == LongQuotient(num0, den0)
  {
    var num, den, minus := num0, den0, false;
    if num < 0 {
      num := Negate(num, DWORD);
      minus := true;
    }
    if den < 0 {
      den := Negate(den, DWORD);
      minus := !minus;
    }
    Magnitude(num0, DWORD / 2);
    Magnitude(den0, DWORD / 2);
    var n, d := num % DWORD, den % DWORD;
    var q, r := UDivModDi4(n, d, oneOverZero, 0);
    v := Signed(q, DWORD);
    if minus { v := Negate(v, DWORD); }
    if den0 != 0 {
      QuotientFits(n, d);
      SignBack(q, minus, DWORD / 2);
    }
  }

  /** `__moddi3`; `stale` is what its uninitialised `v` holds. Unlike in `__modsi3` the sign of the divisor flips
      the result. */
  method ModDi3(num0: int, den0: int, oneOverZero: nat, stale: nat) returns (v: int)
    requires Int64(num0) && Int64(den0)
    ensures den0 != 0 ==> v == LongRemainder(num0, den0)
  {
    var num, den, minus := num0, den0, false;
    if num < 0 {
      num := Negate(num, DWORD);
      minus := true;
    }
    if den < 0 {
      den := Negate(den, DWORD);
      minus := !minus;
    }
    Magnitude(num0, DWORD / 2);
    Magnitude(den0, DWORD / 2);
    var n, d := num % DWORD, den % DWORD;
    var q, r := UDivModDi4(n, d, oneOverZero, stale);
    v := Signed(r, DWORD);
    if minus { v := Negate(v, DWORD); }
    if den0 != 0 {
      QuotientFits(n, d);
      SignBack(r, minus, DWORD / 2);
    }
  }

  /** The 64-bit quotient and remainder belong together exactly when the quotient fits and the divisor is
      positive or divides the dividend. */
  lemma LongIdentityIff(num: int, den: int)
    requires Int64(num) && Int64(den) && den != 0
    ensures num == LongQuotient(num, den) * den + LongRemainder(num, den)
      <==> (den > 0 || TruncMod(num, den) == 0) && !(num == -0x8000_0000_0000_0000 && den == -1)
  {
    TruncIdentity(num, den);
  }

  /** -7 divided by -2 is 3; the remainder comes out as 1, not -1. */
  lemma LongIdentityFails()
    ensures LongQuotient(-7, -2) == 3 && LongRemainder(-7, -2) == 1 && TruncMod(-7, -2) == -1
  {
  }
}
