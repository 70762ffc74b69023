/** Printing integers and parsing them back: itoa, atoi and strtol. */
module Text {
  import opened Wrappers
  import opened Words

  // ---------------------------------------------------------------- 32-bit integers and digits

  /** The signed value of the low 32 bits. */
  function Wrap(x: int): (r: int)
    ensures Int32(r)
  {
    (x + 0x8000_0000) % 0x1_0000_0000 - 0x8000_0000
  }

  lemma WrapIs(x: int, r: int, c: int)
    requires Int32(r) && x == r + c * 0x1_0000_0000
    ensures Wrap(x) == r
  {
    Unique(x + 0x8000_0000, r + 0x8000_0000, c);
  }

  lemma Unique(x: int, r: int, c: int)
    requires 0 <= r < 0x1_0000_0000 && x == r + c * 0x1_0000_0000
    ensures x % 0x1_0000_0000 == r
  {
  }

  lemma WrapDiffers(x: int) returns (c: int)
    ensures x == Wrap(x) + c * 0x1_0000_0000
  {
    c := (x + 0x8000_0000) / 0x1_0000_0000;
  }

  /** C's division: toward zero. */
  function Quot(i: int, b: int): int
    requires b > 0
  {
    if i < 0 then -(-i / b) else i / b
  }

  function DigitChar(d: nat): char
    requires d < 36
  {
    if d < 10 then '0' + d as char else 'a' + (d - 10) as char
  }

  /** The value strtol gives a character. */
  function DigitOf(c: char): Option<nat> {
    if '0' <= c <= '9' then Some((c - '0') as nat)
    else if 'A' <= c <= 'Z' then Some((c - 'A') as nat + 10)
    else if 'a' <= c <= 'z' then Some((c - 'a') as nat + 10)
    else None
  }

  lemma DigitsAgree(d: nat)
    requires d < 36
    ensures DigitOf(DigitChar(d)) == Some(d) && DigitChar(d) != '-' && (DigitChar(d) == '0' <==> d == 0)
    ensures '0' <= DigitChar(d) <= '9' <==> d < 10
  {
  }

  function Digits(n: nat, b: nat): (s: string)
    requires 2 <= b <= 36
    ensures |s| > 0
    decreases n, b
  {
    if n < b then [DigitChar(n)]
    else
      Smaller(n, b);
      Digits(n / b, b) + [DigitChar(n % b)]
  }

  predicate Base(b: int) { 2 <= b <= 36 }

  /** What itoa leaves in the buffer, up to the terminator. */
  function Printed(i: int, b: int): string {
    if !Base(b) then "" else if i < 0 then "-" + Digits(-i, b) else Digits(i, b)
  }

  /** The number a run of digits spells, in any base. */
  function Number(ds: string, b: int): int {
    if |ds| == 0 then 0
    else
      var last := DigitOf(ds[|ds| - 1]);
      Append(Number(ds[..|ds| - 1], b), b, if last.Some? then last.value else 0)
  }

  function Append(n: int, b: int, d: int): int { n * b + d }

  predicate AllDigits(ds: string, b: nat) {
    forall k :: 0 <= k < |ds| ==> DigitOf(ds[k]).Some? && DigitOf(ds[k]).value < b
  }

  /** Digits spell the number they are made from. */
  lemma {:induction false} DigitsSpell(n: nat, b: nat)
    requires Base(b)
    ensures Number(Digits(n, b), b) == n && AllDigits(Digits(n, b), b)
    ensures Digits(n, b)[0] == '0' <==> n == 0
    ensures n == 0 ==> |Digits(n, b)| == 1
    decreases n, b
  {
    if n < b {
      DigitsAgree(n);
      assert Number([DigitChar(n)], b) == Number([], b) * b + n;
    } else {
      var d, h := n % b, n / b;
      Smaller(n, b);
      DigitsSpell(h, b);
      DigitsAgree(d);
      var s := Digits(n, b);
      assert s[..|s| - 1] == Digits(h, b) && s[0] == Digits(h, b)[0];
    }
  }

  lemma Smaller(n: nat, b: nat)
    requires 2 <= b <= n
    ensures 0 < n / b < n && n == n / b * b + n % b && n % b < b
  {
    assert n == b * (n / b) + n % b;
    QuotientIsSmaller(n, b, n / b, n % b);
  }

  lemma QuotientIsSmaller(n: nat, b: nat, q: int, r: nat)
    requires 2 <= b <= n && n == b * q + r && r < b
    ensures 0 < q < n && n == q * b + r
  {
    assert q <= 0 ==> b * q <= 0;
    assert q > 0 ==> b * q >= 2 * q;
  }

  // ---------------------------------------------------------------- itoa

  const BACK := "zyxwvutsrqponmlkjihgfedcba987654321"
  const FRONT := "0123456789abcdefghijklmnopqrstuvwxyz"

  /** Indexed by 35 plus a remainder of either sign. */
  const TABLE := BACK + FRONT

  lemma FrontIs(d: nat)
    requires d < 36
    ensures |FRONT| == 36 && FRONT[d] == DigitChar(d)
  {
  }

  lemma BackIs(d: nat)
    requires 0 < d < 36
    ensures |BACK| == 35 && BACK[35 - d] == DigitChar(d)
  {
  }

  lemma TableIs(r: int)
    requires -36 < r < 36
    ensures |TABLE| == 71 && TABLE[35 + r] == DigitChar(Abs(r))
  {
    if r < 0 { BackIs(-r); } else { FrontIs(r); }
    assert |BACK| == 35 && |FRONT| == 36;
  }

  function Rev(s: string): (r: string)
    ensures |r| == |s|
  {
    if |s| == 0 then "" else [s[|s| - 1]] + Rev(s[..|s| - 1])
  }

  lemma {:induction false} RevAt(s: string, k: nat)
    requires k < |s|
    ensures Rev(s)[k] == s[|s| - 1 - k]
  {
    if k > 0 { RevAt(s[..|s| - 1], k - 1); }
  }

  lemma RevAdds(s: string, c: char)
    ensures Rev(s + [c]) == [c] + Rev(s)
  {
    assert (s + [c])[..|s|] == s;
  }

  /** One turn of the digit loop. */
  lemma DigitStep(i: int, b: int)
    requires Base(b)
    ensures var r := i - Quot(i, b) * b;
      -36 < r < 36 && Digits(Abs(i), b)
        == (if Quot(i, b) == 0 then "" else Digits(Abs(Quot(i, b)), b)) + [DigitChar(Abs(r))]
    ensures Abs(Quot(i, b)) < Abs(i) || i == 0
    ensures Quot(i, b) != 0 ==> (Quot(i, b) < 0 <==> i < 0)
  {
    var n, q := Abs(i), Quot(i, b);
    Division(n, b);
    assert Abs(q) == n / b;
    assert Abs(i - q * b) == n % b by { assert q * b == if i < 0 then -(n / b * b) else n / b * b; }
  }

  lemma Division(n: nat, b: nat)
    requires 2 <= b
    ensures n == n / b * b + n % b && n % b < b && (n / b < n || n == 0) && (n / b == 0 <==> n < b)
      && (n < b ==> n % b == n)
  {
  }

  method Itoa(i: int, s: array<char>, base: int)
    requires Int32(i) && |Printed(i, base)| < s.Length
    modifies s
    ensures var p := Printed(i, base);
      s[..|p|] == p && s[|p|] == '\0' && s[|p| + 1..] == old(s[|p| + 1..])
    ensures !(2 <= base <= 36) ==> s[0] == '\0'
  {
    if base < 2 || base > 36 {
      s[0] := '\0';
      return;
    }
    ghost var p := Printed(i, base);
    var ptr, tmp := WriteDigits(i, s, base);
    if tmp < 0 {
      Put(s, ptr, '-');
      ptr := ptr + 1;
    }
    RevTwice(p, s[..ptr]);
    assert ptr == |p|;
    s[ptr] := '\0';
    ReverseFirst(s, ptr);
  }

  lemma RevTwice(p: string, s: string)
    requires p == Rev(s)
    ensures |p| == |s|
  {
  }

  /** The digits come out lowest first. `tmp` ends as the leading digit, with the sign of the number. */
  method WriteDigits(n: int, s: array<char>, base: int) returns (ptr: nat, tmp: int)
    requires Int32(n) && Base(base) && |Digits(Abs(n), base)| <= s.Length
    modifies s
    ensures ptr == |Digits(Abs(n), base)| && Rev(s[..ptr]) == Digits(Abs(n), base)
    ensures forall k :: ptr <= k < s.Length ==> s[k] == old(s[k])
    ensures tmp < 0 <==> n < 0
  {
    var i, more := n, true;
    ptr, tmp := 0, 0;
    ghost var head, tail := Digits(Abs(n), base), "";
    while more
      invariant ptr <= s.Length && Int32(i) && ptr == |tail|
      invariant forall k :: ptr <= k < s.Length ==> s[k] == old(s[k])
      invariant tail == Rev(s[..ptr])
      invariant head + tail == Digits(Abs(n), base)
      invariant head == Rest(more, i, base)
      invariant if more then i < 0 <==> n < 0 else tmp < 0 <==> n < 0
      decreases more, Abs(i)
    {
      tmp := i;
      var c;
      i, c := NextDigit(tmp, base);
      more := i != 0;
      Moved(head, Rest(more, i, base), c, tail);
      Put(s, ptr, c);
      ptr := ptr + 1;
      head, tail := Rest(more, i, base), [c] + tail;
    }
    assert head + tail == tail;
  }

  /** The digits still to come. */
  ghost function Rest(more: bool, i: int, b: int): string
    requires Base(b)
  {
    if more then Digits(Abs(i), b) else ""
  }

  lemma Moved(head: string, rest: string, c: char, tail: string)
    requires head == rest + [c]
    ensures rest + ([c] + tail) == head + tail && |rest| < |head|
  {
  }

  /** One more character, seen from the end. */
  method Put(s: array<char>, ptr: nat, c: char)
    requires ptr < s.Length
    modifies s
    ensures Rev(s[..ptr + 1]) == [c] + old(Rev(s[..ptr]))
    ensures forall k :: ptr < k < s.Length ==> s[k] == old(s[k])
  {
    RevAdds(s[..ptr], c);
    s[ptr] := c;
    assert s[..ptr + 1] == old(s[..ptr]) + [c];
  }

  /** Divide and look the remainder up. */
  method NextDigit(n: int, base: int) returns (i: int, c: char)
    requires Int32(n) && Base(base)
    ensures Digits(Abs(n), base) == Rest(i != 0, i, base) + [c]
    ensures (Abs(i) < Abs(n) || n == i == 0) && (i != 0 ==> (i < 0 <==> n < 0))
  {
    DigitStep(n, base);
    i := Quot(n, base);
    var r := n - i * base;
    TableIs(r);
    c := TABLE[35 + r];
  }

  method ReverseFirst(s: array<char>, n: nat)
    requires n < s.Length
    modifies s
    ensures s[..n] == Rev(old(s[..n])) && forall k :: n <= k < s.Length ==> s[k] == old(s[k])
  {
    var ptr1, ptr := 0, n - 1;
    while ptr1 < ptr
      invariant 0 <= ptr1 && ptr == n - 1 - ptr1 && ptr1 <= ptr + 2
      invariant forall k :: 0 <= k < ptr1 ==> s[k] == old(s[n - 1 - k]) && s[n - 1 - k] == old(s[k])
      invariant forall k :: ptr1 <= k <= ptr ==> s[k] == old(s[k])
      invariant forall k :: n <= k < s.Length ==> s[k] == old(s[k])
    {
      var tmp := s[ptr];
      s[ptr] := s[ptr1];
      ptr := ptr - 1;
      s[ptr1] := tmp;
      ptr1 := ptr1 + 1;
    }
    ghost var was := old(s[..n]);
    forall k | 0 <= k < n ensures s[..n][k] == Rev(was)[k] { RevAt(was, k); }
  }

  // ---------------------------------------------------------------- atoi

  /** A C string ends at its terminator. */
  function At(s: string, k: nat): char { if k < |s| then s[k] else '\0' }

  function Blanks(s: string, k: nat): (e: nat)
    requires k <= |s|
    ensures k <= e <= |s|
    decreases |s| - k
  {
    if At(s, k) == ' ' || At(s, k) == '\t' then Blanks(s, k + 1) else k
  }

  predicate Decimal(c: char) { '0' <= c <= '9' }

  /** Where the run of decimal digits from `k` ends. */
  function Run(s: string, k: nat): (e: nat)
    requires k <= |s|
    ensures k <= e <= |s|
    decreases |s| - k
  {
    if Decimal(At(s, k)) then Run(s, k + 1) else k
  }

  /** Blanks, one sign, then digits, modulo 2^32. */
  function AtoiValue(s: string): int {
    var k := Blanks(s, 0);
    var c := At(s, k);
    var first := if c == '-' || c == '+' then k + 1 else k;
    var n := Number(s[first..Run(s, first)], 10);
    Wrap(Signed(c == '-', n))
  }

  function Signed(negative: bool, n: int): int { if negative then -n else n }

  lemma NumberGrows(s: string, a: nat, k: nat, b: int)
    requires a <= k < |s|
    ensures DigitOf(s[k]).Some? ==> Number(s[a..k + 1], b) == Append(Number(s[a..k], b), b, DigitOf(s[k]).value)
  {
    var t := s[a..k + 1];
    assert t[..|t| - 1] == s[a..k] && t[|t| - 1] == s[k];
  }

  /** `v` is the number in s[a..k], wrapped. */
  ghost predicate Reads(s: string, a: nat, k: nat, b: int, v: int) {
    a <= k <= |s| && v == Wrap(Number(s[a..k], b))
  }

  /** One more digit. */
  lemma Extended(s: string, a: nat, k: nat, b: int, v: int)
    requires k < |s| && Reads(s, a, k, b, v) && DigitOf(s[k]).Some?
    ensures Reads(s, a, k + 1, b, Wrap(Append(v, b, DigitOf(s[k]).value)))
  {
    NumberGrows(s, a, k, b);
    WrapStep(Number(s[a..k], b), b, DigitOf(s[k]).value);
  }

  /** Wrapping at every step is wrapping once. */
  lemma WrapStep(n: int, b: int, d: int)
    ensures Wrap(Append(Wrap(n), b, d)) == Wrap(Append(n, b, d))
  {
    var c := WrapDiffers(n);
    var e := WrapDiffers(Wrap(n) * b + d);
    assert n * b + d == Wrap(Wrap(n) * b + d) + (e + c * b) * 0x1_0000_0000 by { Distribute(n, Wrap(n), c, b); }
    WrapIs(n * b + d, Wrap(Wrap(n) * b + d), e + c * b);
  }

  lemma Distribute(n: int, w: int, c: int, b: int)
    requires n == w + c * 0x1_0000_0000
    ensures n * b == w * b + c * b * 0x1_0000_0000
  {
  }

  lemma WrapNegates(n: int)
    ensures Wrap(-Wrap(n)) == Wrap(-n)
  {
    WrapStep(n, -1, 0);
  }

  method Atoi(s: string) returns (r: int)
    ensures r == AtoiValue(s)
  {
    var n, f, k: nat := 0, 0, 0;
    while At(s, k) == ' ' || At(s, k) == '\t'
      invariant k <= |s| && Blanks(s, k) == Blanks(s, 0)
      decreases |s| - k
    {
      k := k + 1;
    }
    if At(s, k) == '-' {
      f := f + 1;
      k := k + 1;
    } else if At(s, k) == '+' {
      k := k + 1;
    }
    ghost var first := k;
    n, k := ReadDecimal(s, k);
    WrapNegates(Number(s[first..Run(s, first)], 10));
    r := if f != 0 then Wrap(-n) else n;
  }

  method ReadDecimal(s: string, first: nat) returns (n: int, k: nat)
    requires first <= |s|
    ensures k == Run(s, first) && n == Wrap(Number(s[first..k], 10))
  {
    n, k := 0, first;
    while Decimal(At(s, k))
      invariant Reads(s, first, k, 10, n) && Run(s, k) == Run(s, first)
      decreases |s| - k
    {
      Extended(s, first, k, 10, n);
      n := Wrap(Append(n, 10, (At(s, k) - '0') as int));
      k := k + 1;
    }
  }

  // ---------------------------------------------------------------- strtol

  /** Where the digits and letters from `k` end, when at most `m` are read. */
  function Letters(s: string, k: nat, m: nat): (e: nat)
    requires k <= |s|
    ensures k <= e <= |s| && e <= k + m
    decreases m
  {
    if m > 0 && DigitOf(At(s, k)).Some? then Letters(s, k + 1, m - 1) else k
  }

  datatype Read = Read(value: int, end: nat)

  /** A minus sign, a 0x prefix that overrides the base, then at most nine digits, none checked against the base. */
  function StrtolValue(s: string, base: int): Read {
    var k := if At(s, 0) == '-' then 1 else 0;
    var hex := HexAt(s, k);
    var first := if hex then k + 2 else k;
    var n := Spelled(s, first, if hex then 16 else base);
    Read(Wrap(Signed(k == 1, n)), StopAt(s, first))
  }

  function FirstNine(ds: string): string { if |ds| <= 9 then ds else ds[..9] }

  predicate HexAt(s: string, k: nat) { At(s, k) == '0' && At(s, k + 1) == 'x' }

  /** The number in the at most nine digits from `first`. */
  function Spelled(s: string, first: nat, base: int): int
    requires first <= |s|
  {
    Number(s[first..Letters(s, first, 9)], base)
  }

  function StopAt(s: string, first: nat): nat
    requires first <= |s|
  {
    if Letters(s, first, 9) == first + 9 then first + 8 else Letters(s, first, 9)
  }

  /** `end` is where reading stopped, except that after nine digits it is the ninth. */
  method Strtol(s: string, base0: int) returns (value: int, end: nat)
    requires Int32(base0)
    ensures Read(value, end) == StrtolValue(s, base0)
  {
    var base, neg, k: nat := base0, false, 0;
    if At(s, 0) == '-' {
      neg := true;
      k := k + 1;
    }
    if HexAt(s, k) {
      base := 16;
      k := k + 2;
    }
    StrtolIs(s, base0, neg, k, base);
    ghost var n := Spelled(s, k, base);
    value, k := ReadNine(s, k, base);
    end := k - 1;
    WrapNegates(n);
    if neg { value := Wrap(-value); }
  }

  lemma StrtolIs(s: string, base: int, negative: bool, first: nat, b: int)
    requires negative <==> At(s, 0) == '-'
    requires var k := if negative then 1 else 0;
      first == (if HexAt(s, k) then k + 2 else k) && b == if HexAt(s, k) then 16 else base
    ensures first <= |s|
    ensures StrtolValue(s, base) == Read(Wrap(Signed(negative, Spelled(s, first, b))), StopAt(s, first))
  {
  }

  /** The reading loop; `k` ends one past the character that stopped it, or past the ninth. */
  method ReadNine(s: string, first: nat, base: int) returns (value: int, k: nat)
    requires first <= |s|
    ensures value == Wrap(Spelled(s, first, base)) && k == StopAt(s, first) + 1
  {
    k, value := first, 0;
    var i := 0;
    while i <= 8
      invariant 0 <= i <= 9 && k == first + i <= |s|
      invariant Letters(s, k, 9 - i) == Letters(s, first, 9)
      invariant Reads(s, first, k, base, value)
      decreases 9 - i
    {
      var found;
      found, value := ReadOne(s, first, k, base, value);
      k := k + 1;
      if !found { break; }
      i := i + 1;
    }
    LettersEnd(s, first + i, 9 - i);
    ReadsSpelled(s, first, base, value);
  }

  lemma LettersEnd(s: string, k: nat, m: nat)
    requires k <= |s| && (m == 0 || DigitOf(At(s, k)).None?)
    ensures Letters(s, k, m) == k
  {
  }

  lemma ReadsSpelled(s: string, first: nat, base: int, v: int)
    requires first <= |s| && Reads(s, first, Letters(s, first, 9), base, v)
    ensures v == Wrap(Spelled(s, first, base))
  {
  }

  /** One character, added to the value if it is a digit or a letter. */
  method ReadOne(s: string, ghost first: nat, k: nat, base: int, v: int) returns (found: bool, value: int)
    requires k <= |s| && Reads(s, first, k, base, v)
    ensures found == DigitOf(At(s, k)).Some? && (found ==> k < |s|)
    ensures Reads(s, first, if found then k + 1 else k, base, value)
  {
    var ch := DigitOf(At(s, k));
    if ch.None? { return false, v; }
    Extended(s, first, k, base, v);
    return true, Wrap(Append(v, base, ch.value));
  }

  // ---------------------------------------------------------------- round trips

  /** Parsing in decimal what was printed in decimal gives every 32-bit integer back, the least one included. */
  lemma AtoiOfItoa(i: int)
    requires Int32(i)
    ensures AtoiValue(Printed(i, 10)) == i
  {
    var sign := if i < 0 then "-" else "";
    AtoiReads("", sign, Abs(i), "");
    PrintedParts(i, 10, sign);
    WrapIs(i, i, 0);
  }

  lemma PrintedParts(i: int, b: int, sign: string)
    requires Base(b) && sign == if i < 0 then "-" else ""
    ensures "" + sign + Digits(Abs(i), b) + "" == Printed(i, b)
  {
  }

  predicate Tail(s: string, first: nat, ds: string) { first <= |s| && s[first..] == ds }

  /** A sign for the negative, then the digits, whose first is no 0 but in "0" itself. */
  lemma PrintedShape(i: int, b: int)
    requires Base(b)
    ensures var s, ds, first := Printed(i, b), Digits(Abs(i), b), if i < 0 then 1 else 0;
      Tail(s, first, ds) && AllDigits(ds, b) && (At(s, 0) == '-' <==> i < 0)
        && (At(s, first) == '0' ==> At(s, first + 1) == '\0')
  {
    DigitsSpell(Abs(i), b);
    assert DigitOf('-').None?;
  }

  lemma DigitsAreDecimal(ds: string)
    requires AllDigits(ds, 10)
    ensures forall k :: 0 <= k < |ds| ==> Decimal(ds[k])
  {
  }

  function Power(b: nat, k: nat): nat { if k == 0 then 1 else b * Power(b, k - 1) }

  lemma {:induction false} DigitCount(n: nat, b: nat, k: nat)
    requires Base(b) && k >= 1
    ensures |Digits(n, b)| <= k <==> n < Power(b, k)
    decreases k
  {
    if k == 1 {
      assert Power(b, 1) == b * Power(b, 0) == b;
    } else {
      Division(n, b);
      if n >= b { DigitCount(n / b, b, k - 1); } else { AtLeastBase(b, k); }
      DividedBelow(n, b, Power(b, k - 1));
    }
  }

  lemma DividedBelow(n: nat, b: nat, p: nat)
    requires 2 <= b
    ensures n / b < p <==> n < b * p
  {
    var q, r := n / b, n % b;
    assert n == b * q + r && r < b;
    if q < p { Multiples(b, q + 1, p); } else { Multiples(b, p, q); }
  }

  lemma Multiples(b: nat, x: nat, y: nat)
    requires x <= y
    ensures b * x <= b * y
  {
  }

  lemma {:induction false} AtLeastBase(b: nat, k: nat)
    requires 2 <= b && k >= 1
    ensures Power(b, k) >= b
    decreases k
  {
    if k > 1 {
      AtLeastBase(b, k - 1);
      assert b * Power(b, k - 1) >= b * 1;
    } else {
      assert Power(b, 1) == b * Power(b, 0);
    }
  }

  /** A proper prefix of the digits spells a smaller number. */
  lemma {:induction false} PrefixIsLess(n: nat, b: nat, m: nat)
    requires Base(b) && m < |Digits(n, b)|
    ensures 0 <= Number(Digits(n, b)[..m], b) <= n && (n > 0 ==> Number(Digits(n, b)[..m], b) < n)
    decreases n, b
  {
    if n < b {
      assert Digits(n, b)[..m] == "";
    } else {
      Smaller(n, b);
      var h := Digits(n / b, b);
      assert Digits(n, b)[..m] == h[..m];
      if m < |h| {
        PrefixIsLess(n / b, b, m);
      } else {
        assert h[..m] == h;
        DigitsSpell(n / b, b);
      }
    }
  }

  lemma {:induction false} LettersStop(s: string, k: nat, m: nat)
    requires k <= |s| && forall j :: k <= j < |s| ==> DigitOf(s[j]).Some?
    ensures Letters(s, k, m) == if k + m <= |s| then k + m else |s|
    decreases m
  {
    if m > 0 && k < |s| { LettersStop(s, k + 1, m - 1); }
  }

  /** What strtol makes of a printed number: its first nine digits. */
  lemma StrtolReadsNine(i: int, b: int)
    requires Int32(i) && Base(b)
    ensures StrtolValue(Printed(i, b), b).value == Wrap(Signed(i < 0, Number(FirstNine(Digits(Abs(i), b)), b)))
  {
    PrintedShape(i, b);
    ReadsNine(Printed(i, b), Digits(Abs(i), b), b, i < 0);
  }

  lemma ReadsNine(s: string, ds: string, b: int, negative: bool)
    requires Base(b) && AllDigits(ds, b) && (negative <==> At(s, 0) == '-')
    requires var first := if negative then 1 else 0; Tail(s, first, ds) && !HexAt(s, first)
    ensures StrtolValue(s, b).value == Wrap(Signed(negative, Number(FirstNine(ds), b)))
  {
    StrtolPlain(s, b, negative);
    SpelledNine(s, if negative then 1 else 0, ds, b);
  }

  /** Without a 0x prefix the base is the caller's. */
  lemma StrtolPlain(s: string, b: int, negative: bool)
    requires negative <==> At(s, 0) == '-'
    requires var first := if negative then 1 else 0; first <= |s| && !HexAt(s, first)
    ensures StrtolValue(s, b).value == Wrap(Signed(negative, Spelled(s, if negative then 1 else 0, b)))
  {
  }

  lemma SpelledNine(s: string, first: nat, ds: string, b: int)
    requires Tail(s, first, ds) && Base(b) && AllDigits(ds, b)
    ensures Spelled(s, first, b) == Number(FirstNine(ds), b)
  {
    assert forall j :: first <= j < |s| ==> s[j] == ds[j - first];
    LettersStop(s, first, 9);
    assert s[first..Letters(s, first, 9)] == FirstNine(ds);
  }

  /** Reading a number printed in the same base gives it back exactly when it has at most nine digits. */
  lemma StrtolOfItoaIff(i: int, b: int)
    requires Int32(i) && Base(b)
    ensures StrtolValue(Printed(i, b), b).value == i <==> Abs(i) < Power(b, 9)
  {
    var n := Abs(i);
    var ds := Digits(n, b);
    StrtolReadsNine(i, b);
    DigitCount(n, b, 9);
    DigitsSpell(n, b);
    if |ds| <= 9 {
      WrapIs(i, i, 0);
    } else {
      PrefixIsLess(n, b, 9);
      var v := Number(ds[..9], b);
      var r := if i < 0 then -v else v;
      WrapIs(r, r, 0);
    }
  }

  /** From base 11 on nine digits hold every 32-bit integer; in base 10 they do not. */
  lemma StrtolOfItoa(i: int, b: int)
    requires Int32(i) && Base(b)
    ensures b >= 11 ==> StrtolValue(Printed(i, b), b).value == i
    ensures b == 10 ==> (StrtolValue(Printed(i, b), b).value == i <==> Abs(i) < 1000000000)
  {
    StrtolOfItoaIff(i, b);
    if b >= 11 { PowerRises(11, b, 9); }
    assert Power(11, 9) == 2357947691 && Power(10, 9) == 1000000000;
  }

  /** The tenth digit is lost, and the end pointer comes out at the ninth. */
  lemma StrtolStopsAtNine()
    ensures var r := StrtolValue(Printed(1000000000, 10), 10); r.value != 1000000000 && r.end == 8
  {
    StrtolOfItoa(1000000000, 10);
    DigitCount(1000000000, 10, 9);
    assert Power(10, 9) == 1000000000;
    PrintedShape(1000000000, 10);
    EndsAtNine(Printed(1000000000, 10), 10);
  }

  /** Digits without a sign or a prefix, more than nine of them. */
  lemma EndsAtNine(s: string, b: int)
    requires Base(b) && AllDigits(s, b) && |s| > 9 && At(s, 0) != '-' && !HexAt(s, 0)
    ensures StrtolValue(s, b).end == 8
  {
    assert forall j :: 0 <= j < |s| ==> DigitOf(s[j]).Some?;
    LettersStop(s, 0, 9);
  }

  lemma {:induction false} PowerRises(b: nat, c: nat, k: nat)
    requires b <= c
    ensures Power(b, k) <= Power(c, k)
    decreases k
  {
    if k > 0 {
      PowerRises(b, c, k - 1);
      var p, q := Power(b, k - 1), Power(c, k - 1);
      Multiples(c, p, q);
      Multiples(p, b, c);
    }
  }

  // ---------------------------------------------------------------- what is read, character by character

  /** `ds` stands in `s` at `first`. */
  predicate StandsAt(s: string, first: nat, ds: string) { first + |ds| <= |s| && s[first..first + |ds|] == ds }

  lemma {:induction false} BlanksEnd(s: string, k: nat, n: nat)
    requires k <= n <= |s| && (forall j :: k <= j < n ==> s[j] == ' ' || s[j] == '\t')
    requires At(s, n) != ' ' && At(s, n) != '\t'
    ensures Blanks(s, k) == n
    decreases n - k
  {
    if k < n { BlanksEnd(s, k + 1, n); }
  }

  lemma {:induction false} RunEnds(s: string, k: nat, n: nat)
    requires k <= n <= |s| && (forall j :: k <= j < n ==> Decimal(s[j])) && !Decimal(At(s, n))
    ensures Run(s, k) == n
    decreases n - k
  {
    if k < n { RunEnds(s, k + 1, n); }
  }

  lemma {:induction false} LettersEndAt(s: string, k: nat, n: nat, m: nat)
    requires k <= n <= |s| && n <= k + m && (forall j :: k <= j < n ==> DigitOf(s[j]).Some?)
    requires DigitOf(At(s, n)).None?
    ensures Letters(s, k, m) == n
    decreases m
  {
    if k < n { LettersEndAt(s, k + 1, n, m - 1); }
  }

  predicate AllBlank(bs: string) { forall k :: 0 <= k < |bs| ==> bs[k] == ' ' || bs[k] == '\t' }

  /** atoi skips any blanks, takes one sign, and reads a number up to the first character that is no digit. */
  lemma AtoiReads(bs: string, sign: string, n: nat, rest: string)
    requires AllBlank(bs) && sign in {"", "+", "-"} && (rest != "" ==> !Decimal(rest[0]))
    ensures AtoiValue(bs + sign + Digits(n, 10) + rest) == Wrap(Signed(sign == "-", n))
  {
    var ds := Digits(n, 10);
    DigitsSpell(n, 10);
    DigitsAreDecimal(ds);
    AtoiParts(bs, sign, ds, rest, bs + sign + ds + rest);
    AtoiFrom(bs + sign + ds + rest, |bs|, |bs| + |sign|, ds);
  }

  lemma AtoiParts(bs: string, sign: string, ds: string, rest: string, s: string)
    requires AllBlank(bs) && sign in {"", "+", "-"} && (rest != "" ==> !Decimal(rest[0]))
    requires s == bs + sign + ds + rest && |ds| > 0 && Decimal(ds[0])
    ensures SignAt(s, |bs|, |bs| + |sign|) && (At(s, |bs|) == '-' <==> sign == "-")
    ensures StandsAt(s, |bs| + |sign|, ds) && !Decimal(At(s, |bs| + |sign| + |ds|))
  {
    assert forall j :: 0 <= j < |bs| ==> s[j] == bs[j];
    assert At(s, |bs|) == if sign == "" then ds[0] else sign[0];
  }

  /** Behind `k` blanks, the digits start at `first`. */
  predicate SignAt(s: string, k: nat, first: nat) {
    k <= first <= |s| && AllBlank(s[..k]) && At(s, k) != ' ' && At(s, k) != '\t'
    && first == if At(s, k) == '-' || At(s, k) == '+' then k + 1 else k
  }

  lemma AtoiFrom(s: string, k: nat, first: nat, ds: string)
    requires SignAt(s, k, first) && StandsAt(s, first, ds) && !Decimal(At(s, first + |ds|)) && AllDigits(ds, 10)
    ensures AtoiValue(s) == Wrap(Signed(At(s, k) == '-', Number(ds, 10)))
  {
    DigitsRunTo(s, first, ds);
    assert forall j :: 0 <= j < k ==> s[j] == s[..k][j];
    BlanksEnd(s, 0, k);
    AtoiIs(s, k, first, first + |ds|, ds);
  }

  /** Without a digit behind the blanks and the sign it is 0. */
  lemma AtoiWithoutDigits(s: string, k: nat, first: nat)
    requires SignAt(s, k, first) && !Decimal(At(s, first))
    ensures AtoiValue(s) == 0
  {
    AtoiFrom(s, k, first, "");
  }

  lemma DigitsRunTo(s: string, first: nat, ds: string)
    requires StandsAt(s, first, ds) && !Decimal(At(s, first + |ds|)) && AllDigits(ds, 10)
    ensures Run(s, first) == first + |ds|
  {
    DigitsAreDecimal(ds);
    assert forall j :: first <= j < first + |ds| ==> s[j] == ds[j - first];
    RunEnds(s, first, first + |ds|);
  }

  lemma AtoiIs(s: string, k: nat, first: nat, e: nat, ds: string)
    requires k <= first <= e <= |s| && s[first..e] == ds && Blanks(s, 0) == k && Run(s, first) == e
    requires first == if At(s, k) == '-' || At(s, k) == '+' then k + 1 else k
    ensures AtoiValue(s) == Wrap(Signed(At(s, k) == '-', Number(ds, 10)))
  {
  }

  function Upper(c: char): char { if 'a' <= c <= 'z' then 'A' + (c - 'a') else c }

  function Uppers(ds: string): (r: string)
    ensures |r| == |ds|
  {
    seq(|ds|, k requires 0 <= k < |ds| => Upper(ds[k]))
  }

  /** Capital letters spell the same number. */
  lemma {:induction false} UppersSpell(ds: string, b: nat)
    ensures Number(Uppers(ds), b) == Number(ds, b)
    ensures AllDigits(ds, b) ==> AllDigits(Uppers(ds), b)
  {
    if ds != "" {
      var n := |ds| - 1;
      UppersSpell(ds[..n], b);
      assert Uppers(ds)[..n] == Uppers(ds[..n]);
      assert DigitOf(Upper(ds[n])) == DigitOf(ds[n]);
    }
  }

  /** strtol takes one minus sign, a 0x prefix, and at most nine digits up to the first character that is neither a
      digit nor a letter; the prefix sets the base to 16 whatever the caller asked for. */
  lemma StrtolReads(sign: string, hex: bool, ds: string, rest: string, base: int)
    requires sign in {"", "-"} && |ds| <= 9 && AllDigits(ds, 36) && (rest != "" ==> DigitOf(rest[0]).None?)
    requires !hex ==> !HexAt(ds, 0) && (ds == sign == "" ==> At(rest, 0) != '-')
    ensures var prefix := sign + if hex then "0x" else "";
      var r := StrtolValue(prefix + ds + rest, base);
      r.value == Wrap(Signed(sign == "-", Number(ds, if hex then 16 else base)))
      && r.end == |prefix| + if |ds| == 9 then 8 else |ds|
  {
    var prefix := sign + if hex then "0x" else "";
    var s := prefix + ds + rest;
    assert StandsAt(s, |prefix|, ds);
    assert At(s, |prefix| + |ds|) == At(rest, 0) && DigitOf('\0').None?;
    SignAndPrefix(s, sign, hex, ds, rest);
    NineOrFewer(s, |prefix|, ds, if hex then 16 else base);
    StrtolIs(s, base, sign == "-", |prefix|, if hex then 16 else base);
  }

  lemma SignAndPrefix(s: string, sign: string, hex: bool, ds: string, rest: string)
    requires sign in {"", "-"} && AllDigits(ds, 36) && (rest != "" ==> DigitOf(rest[0]).None?)
    requires !hex ==> !HexAt(ds, 0) && (ds == sign == "" ==> At(rest, 0) != '-')
    requires s == sign + (if hex then "0x" else "") + ds + rest
    ensures (At(s, 0) == '-' <==> sign == "-") && (HexAt(s, |sign|) <==> hex)
  {
    var k := |sign|;
    assert DigitOf('-').None? && DigitOf('x').Some?;
    if hex {
      assert s[k] == '0' && s[k + 1] == 'x';
    } else {
      assert At(s, k) == if |ds| > 0 then ds[0] else At(rest, 0);
      assert |ds| > 0 ==> At(s, k + 1) == if |ds| > 1 then ds[1] else At(rest, 0);
    }
  }

  lemma NineOrFewer(s: string, first: nat, ds: string, b: int)
    requires StandsAt(s, first, ds) && |ds| <= 9 && AllDigits(ds, 36) && DigitOf(At(s, first + |ds|)).None?
    ensures Spelled(s, first, b) == Number(ds, b)
    ensures StopAt(s, first) == first + if |ds| == 9 then 8 else |ds|
  {
    assert forall j :: first <= j < first + |ds| ==> s[j] == ds[j - first];
    LettersEndAt(s, first, first + |ds|, 9);
  }

  /** Eight digits are enough, and nine are read. */
  lemma HexDigits(n: nat, b: nat)
    requires n < WORD && b == 16
    ensures |Digits(n, b)| <= 9 && AllDigits(Digits(n, b), b) && Number(Digits(n, b), b) == n
    ensures |Digits(n, b)| > 0
  {
    DigitsSpell(n, b);
    DigitCount(n, b, 9);
    assert Power(16, 9) == 68719476736;
  }

  /** Every 32-bit number written in hexadecimal with a 0x prefix, in small or capital letters, is read back in
      every base. */
  lemma StrtolOfHex(n: nat, negative: bool, capital: bool, base: int)
    requires n < WORD
    ensures var ds := Digits(n, 16);
      StrtolValue((if negative then "-" else "") + "0x" + (if capital then Uppers(ds) else ds), base).value
        == Wrap(Signed(negative, n))
  {
    HexDigits(n, 16);
    var ds := Digits(n, 16);
    UppersSpell(ds, 16);
    SpellsHex(n, if capital then Uppers(ds) else ds, negative, base);
  }

  lemma SpellsHex(n: nat, ds: string, negative: bool, base: int)
    requires 0 < |ds| <= 9 && AllDigits(ds, 16) && Number(ds, 16) == n
    ensures StrtolValue((if negative then "-" else "") + "0x" + ds, base).value == Wrap(Signed(negative, n))
  {
    var sign := if negative then "-" else "";
    StrtolReads(sign, true, ds, "", base);
    NothingBehind(sign + "0x" + ds);
  }

  lemma NothingBehind(s: string)
    ensures s + "" == s
  {
  }
}
