/** Scanning of floating-point numbers, over the exact reals. */
module FloatScan {
  import opened Text
  import opened Numbers
  import opened IntIndex

  const MAX_EXPONENT := 511

  /** Entry i is 10 to the power 2 to the i. */
  const POWERS_OF_10: seq<real> :=
    [10.0, 100.0, 1.0e4, 1.0e8, 1.0e16, 1.0e32, 1.0e64, 1.0e128, 1.0e256]

  predicate IsDecimal(c: char) {
    '0' <= c <= '9'
  }

  function DecimalOf(c: char): nat
    requires IsDecimal(c)
  {
    c as int - '0' as int
  }

  ghost predicate AllDecimal(s: string) {
    forall i :: 0 <= i < |s| ==> IsDecimal(s[i])
  }

  /** The number a string of digits denotes. */
  function NatOf(s: string): nat
    requires AllDecimal(s)
  {
    if s == "" then 0 else 10 * NatOf(s[..|s| - 1]) + DecimalOf(s[|s| - 1])
  }

  function Pow(b: real, e: nat): real {
    if e == 0 then 1.0 else b * Pow(b, e - 1)
  }

  /** `m` times ten to the `e`. */
  function Scale(m: real, e: int): real {
    PowPositive(if e < 0 then -e else e);
    if e < 0 then m / Pow(10.0, -e) else m * Pow(10.0, e)
  }

  lemma {:induction false} PowPositive(e: nat)
    ensures Pow(10.0, e) > 0.0
  {
    if e > 0 { PowPositive(e - 1); }
  }

  // ---------------------------------------------------------------- what a numeral says

  /** The end of the mantissa that starts at `p`: digits with at most one point among them. */
  function MantissaEnd(s: string, p: nat, point: bool): (q: nat)
    requires p <= |s|
    ensures p <= q <= |s|
    decreases |s| - p
  {
    if p < |s| && IsDecimal(s[p]) then MantissaEnd(s, p + 1, point)
    else if p < |s| && s[p] == '.' && !point then MantissaEnd(s, p + 1, true)
    else p
  }

  /** The digits before and after the point of a mantissa. */
  function Whole(m: string): string {
    m[..FirstIndex('.', m)]
  }

  function Fraction(m: string): string {
    var k := FirstIndex('.', m);
    if k < |m| then m[k + 1..] else ""
  }

  lemma MantissaCons(m: string)
    requires m != "" && m[0] != '.'
    ensures Whole(m) == [m[0]] + Whole(m[1..]) && Fraction(m) == Fraction(m[1..])
  {
    assert FirstIndex('.', m) == 1 + FirstIndex('.', m[1..]);
  }

  lemma {:induction false} MantissaShape(s: string, p: nat, point: bool)
    requires p <= |s|
    ensures var m := s[p..MantissaEnd(s, p, point)];
            AllDecimal(Whole(m)) && AllDecimal(Fraction(m)) && (point ==> AllDecimal(m))
    decreases |s| - p
  {
    var q := MantissaEnd(s, p, point);
    var m := s[p..q];
    if p < q {
      var point' := point || s[p] == '.';
      MantissaShape(s, p + 1, point');
      var rest := s[p + 1..q];
      assert m == [s[p]] + rest && m[1..] == rest;
      assert MantissaEnd(s, p + 1, point') == q;
      if s[p] != '.' { MantissaCons(m); }
    }
  }

  function DecimalEnd(s: string, p: nat): (q: nat)
    requires p <= |s|
    ensures p <= q <= |s| && AllDecimal(s[p..q])
    ensures q < |s| ==> !IsDecimal(s[q])
    decreases |s| - p
  {
    if p < |s| && IsDecimal(s[p]) then
      var q := DecimalEnd(s, p + 1);
      assert s[p..q] == [s[p]] + s[p + 1..q];
      q
    else p
  }

  /** The exponent written at `p` and where it ends: none is zero, and one without digits is zero too
      though its letter and sign are consumed. */
  function ExponentAt(s: string, p: nat): (r: (int, nat))
    requires p <= |s|
    ensures p <= r.1 <= |s|
  {
    if p < |s| && s[p] in "Ee" then
      var q := if p + 1 < |s| && s[p + 1] in "+-" then p + 2 else p + 1;
      var e := DecimalEnd(s, q);
      var n: int := NatOf(s[q..e]);
      (if p + 1 < |s| && s[p + 1] == '-' then -n else n, e)
    else (0, p)
  }

  function Min(a: nat, b: nat): nat {
    if a < b then a else b
  }

  function Clamp(e: int): int {
    if e > MAX_EXPONENT then MAX_EXPONENT else if e < -MAX_EXPONENT then -MAX_EXPONENT else e
  }

  /** The value of a numeral: the first eighteen digits of its mantissa as an integer, scaled by its
      exponent, the place of the point and the digits dropped. */
  function FloatValue(negative: bool, whole: string, fraction: string, e: int): real
    requires AllDecimal(whole) && AllDecimal(fraction)
  {
    var digits := whole + fraction;
    var n := Min(18, |digits|);
    var x := Scale(NatOf(digits[..n]) as real, Clamp(|whole| - n + e));
    if negative then -x else x
  }

  /** The value scanned and the number of characters consumed. */
  function ScanFlt(s: string): (real, nat) {
    ScanUnsigned(Negative(s, 0), s, AfterSigns(s, 0))
  }

  function ScanUnsigned(negative: bool, s: string, p: nat): (real, nat)
    requires p <= |s|
  {
    var end := MantissaEnd(s, p, false);
    var m := s[p..end];
    MantissaShape(s, p, false);
    if Whole(m) + Fraction(m) == "" then (0.0, end)
    else
      var (e, q) := ExponentAt(s, end);
      (FloatValue(negative, Whole(m), Fraction(m), e), q)
  }

  /** What was found in the text, put together. */
  lemma ScanUnsignedIs(negative: bool, s: string, p: nat, end: nat, whole: string, fraction: string, e: int, q: nat)
    requires p <= |s| && end == MantissaEnd(s, p, false) && Whole(s[p..end]) == whole && Fraction(s[p..end]) == fraction
    requires AllDecimal(whole) && AllDecimal(fraction) && whole + fraction != "" && ExponentAt(s, end) == (e, q)
    ensures ScanUnsigned(negative, s, p) == (FloatValue(negative, whole, fraction, e), q)
  {
  }

  // ---------------------------------------------------------------- powers

  lemma {:induction false} PowSquare(b: real, e: nat)
    ensures Pow(b, e) == (if e % 2 == 1 then b else 1.0) * Pow(b * b, e / 2)
    decreases e
  {
    if e >= 2 {
      PowSquare(b, e - 2);
      assert Pow(b, e) == b * (b * Pow(b, e - 2));
      assert Pow(b * b, e / 2) == (b * b) * Pow(b * b, e / 2 - 1);
    }
  }

  function Pow2(i: nat): nat {
    if i == 0 then 1 else 2 * Pow2(i - 1)
  }

  /** Each entry is the square of the one before. */
  ghost predicate SquaresOfTen(table: seq<real>) {
    && |table| == 9 && table[0] == 10.0
    && forall i :: 0 <= i < 8 ==> table[i + 1] == table[i] * table[i]
  }

  lemma PowStep(r: real, b: real, exp: nat, goal: real)
    requires r * Pow(b, exp) == goal
    ensures (if exp % 2 == 1 then r * b else r) * Pow(b * b, exp / 2) == goal
  {
    PowSquare(b, exp);
    var rest := Pow(b * b, exp / 2);
    assert (r * b) * rest == r * (b * rest);
  }

  /** Ten to the `exp`, one bit of the exponent at a time. The table is never indexed past its end. */
  method PowerLoop(table: seq<real>, exp0: nat) returns (r: real)
    requires exp0 <= MAX_EXPONENT && SquaresOfTen(table)
    ensures r == Pow(10.0, exp0)
  {
    r := 1.0;
    var exp: nat, i: nat := exp0, 0;
    ghost var b, goal := 10.0, Pow(10.0, exp0);
    assert Pow2(9) == 512 by { assert Pow2(3) == 8; assert Pow2(5) == 32; assert Pow2(7) == 128; }
    while exp != 0
      invariant 0 <= i <= 9 && exp < Pow2(9 - i)
      invariant i < 9 ==> b == table[i]
      invariant r * Pow(b, exp) == goal
      decreases exp
    {
      PowStep(r, b, exp, goal);
      if exp % 2 == 1 { r := r * table[i]; }
      exp := exp / 2;
      b := b * b;
      i := i + 1;
    }
  }

  method PowerOfTen(exp: nat) returns (r: real)
    requires exp <= MAX_EXPONENT
    ensures r == Pow(10.0, exp)
  {
    r := PowerLoop(POWERS_OF_10, exp);
  }

  // ---------------------------------------------------------------- digits

  lemma {:induction false} NatOfBelow(s: string)
    requires AllDecimal(s)
    ensures NatOf(s) < Pow10(|s|)
  {
    if s != "" { NatOfBelow(s[..|s| - 1]); }
  }

  lemma ShiftDigit(x: nat, p: nat, y: nat, d: nat)
    ensures 10 * (x * p + y) + d == x * (10 * p) + (10 * y + d)
  {
  }

  lemma {:induction false} NatOfConcat(a: string, b: string)
    requires AllDecimal(a) && AllDecimal(b)
    ensures AllDecimal(a + b) && NatOf(a + b) == NatOf(a) * Pow10(|b|) + NatOf(b)
    decreases |b|
  {
    if b == "" {
      assert a + b == a;
    } else {
      var front := b[..|b| - 1];
      NatOfConcat(a, front);
      assert (a + b)[..|a + b| - 1] == a + front;
      ShiftDigit(NatOf(a), Pow10(|b| - 1), NatOf(front), DecimalOf(b[|b| - 1]));
    }
  }

  lemma NatOfNext(s: string, k: nat)
    requires AllDecimal(s) && k < |s|
    ensures AllDecimal(s[..k]) && AllDecimal(s[..k + 1])
    ensures NatOf(s[..k + 1]) == 10 * NatOf(s[..k]) + DecimalOf(s[k])
  {
    assert s[..k + 1][..k] == s[..k];
  }

  /** Digit number `k` stands in the text at `start`, after the point if there are `w` digits before
      the point and it is not one of them. */
  ghost predicate Placed(s: string, start: nat, w: nat, digits: string, k: nat)
    requires k < |digits|
  {
    if k < w then start + k < |s| && s[start + k] == digits[k]
    else start + k + 1 < |s| && s[start + k + 1] == digits[k] && s[start + w] == '.'
  }

  ghost predicate AllPlaced(s: string, start: nat, w: nat, digits: string) {
    && AllDecimal(digits)
    && forall k: nat {:trigger Placed(s, start, w, digits, k)} :: k < |digits| ==> Placed(s, start, w, digits, k)
  }

  lemma MantissaPlaced(s: string, start: nat, end: nat)
    requires start <= end <= |s|
    requires var m := s[start..end]; AllDecimal(Whole(m)) && AllDecimal(Fraction(m))
    ensures var m := s[start..end]; AllPlaced(s, start, |Whole(m)|, Whole(m) + Fraction(m))
  {
    var m := s[start..end];
    var w, digits := |Whole(m)|, Whole(m) + Fraction(m);
    forall k: nat | k < |digits| ensures Placed(s, start, w, digits, k) {
      if k < w {
        assert digits[k] == m[k] == s[start + k];
      } else {
        assert digits[k] == Fraction(m)[k - w] == m[k + 1] == s[start + k + 1];
        assert m[w] == s[start + w];
      }
    }
  }

  /** The read position once `k` digits have been taken: past the point only if a digit after it was. */
  function PositionOf(start: nat, w: nat, k: nat): nat {
    start + k + if k > w then 1 else 0
  }

  /** Takes `count` digits, stepping over the point when it comes up. */
  method TakeDigits(s: string, pos: nat, count: nat, ghost start: nat, ghost w: nat, ghost digits: string, ghost k: nat)
    returns (n: nat, p: nat)
    requires AllPlaced(s, start, w, digits) && count <= 9 && k + count <= |digits| && pos == PositionOf(start, w, k)
    ensures p == PositionOf(start, w, k + count)
    ensures AllDecimal(digits[k..k + count]) && n == NatOf(digits[k..k + count]) && n < 1_000_000_000
  {
    ghost var part := digits[k..k + count];
    n, p := 0, pos;
    var i := 0;
    while i < count
      invariant 0 <= i <= count
      invariant p == PositionOf(start, w, k + i)
      invariant AllDecimal(part[..i]) && n == NatOf(part[..i])
    {
      assert Placed(s, start, w, digits, k + i);
      NatOfNext(part, i);
      assert part[i] == digits[k + i] && IsDecimal(part[i]);
      var c := s[p];
      p := p + 1;
      if c == '.' {
        c := s[p];
        p := p + 1;
      }
      n := 10 * n + DecimalOf(c);
      i := i + 1;
    }
    assert part[..count] == part;
    NatOfBelow(part);
    Pow10Grows(count, 9);
    NineDigits();
  }

  lemma NineDigits()
    ensures Pow10(9) == 1_000_000_000
  {
    assert Pow10(3) == 1000;
    assert Pow10(5) == 100_000;
    assert Pow10(7) == 10_000_000;
  }

  /** Counts the characters of the mantissa and locates the point. */
  method FindMantissa(s: string, p: nat) returns (size: nat, point: int)
    requires p <= |s|
    ensures p + size == MantissaEnd(s, p, false)
    ensures -1 <= point < size && (point >= 0 ==> s[p + point] == '.')
    ensures forall i :: p <= i < p + (if point < 0 then size else point) ==> s[i] != '.'
  {
    size, point := 0, -1;
    while p + size < |s| && (IsDecimal(s[p + size]) || (s[p + size] == '.' && point < 0))
      invariant p + size <= |s| && -1 <= point < size
      invariant MantissaEnd(s, p, false) == MantissaEnd(s, p + size, point >= 0)
      invariant point >= 0 ==> s[p + point] == '.'
      invariant forall i :: p <= i < p + (if point < 0 then size else point) ==> s[i] != '.'
    {
      if !IsDecimal(s[p + size]) { point := size; }
      size := size + 1;
    }
  }

  lemma FirstPoint(s: string, p: nat, size: nat, k: nat)
    requires p + size <= |s| && k <= size && (k < size ==> s[p + k] == '.')
    requires forall i :: p <= i < p + k ==> s[i] != '.'
    ensures FirstIndex('.', s[p..p + size]) == k
  {
    var m := s[p..p + size];
    assert forall i :: 0 <= i < size ==> m[i] == s[p + i];
    FirstIndexIs('.', m, k);
  }

  /** Reads an exponent, if one is there. */
  method ReadExponent(s: string, p0: nat) returns (e: int, p: nat)
    requires p0 <= |s|
    ensures (e, p) == ExponentAt(s, p0)
  {
    p, e := p0, 0;
    var negative := false;
    if p < |s| && (s[p] == 'E' || s[p] == 'e') {
      p := p + 1;
      if p < |s| {
        if s[p] == '-' {
          negative := true;
          p := p + 1;
        } else {
          if s[p] == '+' { p := p + 1; }
        }
      }
      e, p := ReadDecimal(s, p);
      if negative { e := -e; }
    }
  }

  method ReadDecimal(s: string, q: nat) returns (n: int, p: nat)
    requires q <= |s|
    ensures p == DecimalEnd(s, q) && n == NatOf(s[q..p])
  {
    n, p := 0, q;
    ghost var end := DecimalEnd(s, q);
    assert s[q..p] == "";
    while p < |s| && IsDecimal(s[p])
      invariant q <= p <= end && DecimalEnd(s, p) == end
      invariant AllDecimal(s[q..p]) && n == NatOf(s[q..p])
    {
      assert s[q..p + 1][..p - q] == s[q..p];
      n := n * 10 + DecimalOf(s[p]);
      p := p + 1;
    }
  }

  /** The mantissa as an integer of at most eighteen digits, nine and nine. */
  method ReadMantissa(s: string, start: nat, n: nat, ghost w: nat, ghost digits: string) returns (fraction: real)
    requires AllPlaced(s, start, w, digits) && 0 < n <= 18 && n <= |digits|
    ensures AllDecimal(digits[..n]) && fraction == NatOf(digits[..n]) as real
  {
    var k := if n > 9 then n - 9 else 0;
    var frac1, p := TakeDigits(s, start, k, start, w, digits, 0);
    var frac2, p2 := TakeDigits(s, p, n - k, start, w, digits, k);
    fraction := 1.0e9 * (frac1 as real) + frac2 as real;
    NatOfConcat(digits[0..k], digits[k..k + (n - k)]);
    assert digits[0..k] + digits[k..k + (n - k)] == digits[..n];
    NineDigits();
    assert k > 0 ==> |digits[k..k + (n - k)]| == 9;
    assert k == 0 ==> frac1 == 0;
  }

  /** The scanner. */
  method StrToFlt(s: string) returns (value: real, used: nat)
    ensures (value, used) == ScanFlt(s)
  {
    var negative, start := ReadSigns(s, 0);
    value, used := ReadUnsigned(negative, s, start);
  }

  /** The digits of a mantissa, without the point. */
  lemma MantissaSize(m: string)
    ensures |Whole(m)| == FirstIndex('.', m)
    ensures |Whole(m) + Fraction(m)| == if FirstIndex('.', m) < |m| then |m| - 1 else |m|
  {
  }

  /** The digits, the exponent and the sign, put together. */
  method ReadScaled(negative: bool, s: string, start: nat, end: nat, n: nat, fracExp: int, ghost whole: string, ghost rest: string)
    returns (value: real, used: nat)
    requires AllDecimal(whole) && AllDecimal(rest) && AllPlaced(s, start, |whole|, whole + rest) && end <= |s|
    requires 0 < n == Min(18, |whole + rest|) && fracExp == |whole| - n
    ensures var (e, q) := ExponentAt(s, end); value == FloatValue(negative, whole, rest, e) && used == q
  {
    var fraction := ReadMantissa(s, start, n, |whole|, whole + rest);
    var e;
    e, used := ReadExponent(s, end);
    value := ApplyExponent(fraction, fracExp + e);
    if negative { value := -value; }
  }

  method ReadUnsigned(negative: bool, s: string, start: nat) returns (value: real, used: nat)
    requires start <= |s|
    ensures (value, used) == ScanUnsigned(negative, s, start)
  {
    var size, point := FindMantissa(s, start);
    var end := start + size;
    MantissaShape(s, start, false);
    var decPt := if point < 0 then size else point;
    FirstPoint(s, start, size, decPt);
    ghost var m := s[start..end];
    MantissaSize(m);
    var n := if point < 0 then size else size - 1;
    var fracExp;
    if n > 18 {
      fracExp := decPt - 18;
      n := 18;
    } else {
      fracExp := decPt - n;
    }
    if n == 0 { return 0.0, end; }
    MantissaPlaced(s, start, end);
    value, used := ReadScaled(negative, s, start, end, n, fracExp, Whole(m), Fraction(m));
    ghost var (e, q) := ExponentAt(s, end);
    ScanUnsignedIs(negative, s, start, end, Whole(m), Fraction(m), e, q);
  }

  /** Scales by a power of ten, of which no more than 511 is used either way. */
  method ApplyExponent(fraction: real, exp0: int) returns (value: real)
    ensures value == Scale(fraction, Clamp(exp0))
  {
    var exp := if exp0 < 0 then -exp0 else exp0;
    if exp > MAX_EXPONENT { exp := MAX_EXPONENT; }
    var power := PowerOfTen(exp);
    PowPositive(exp);
    value := if exp0 < 0 then fraction / power else fraction * power;
  }

  // ---------------------------------------------------------------- exactness

  lemma {:induction false} PowIsPow10(k: nat)
    ensures Pow(10.0, k) == Pow10(k) as real
  {
    if k > 0 { PowIsPow10(k - 1); }
  }

  lemma DivTwice(m: real, a: real, b: real)
    requires a > 0.0 && b > 0.0
    ensures a * b > 0.0 && m / (a * b) == m / a / b
  {
    var q := m / a;
    var r := q / b;
    assert r * b == q && q * a == m;
    assert r * (a * b) == m;
  }

  lemma MulTen(m: real, p: real)
    ensures (m / 10.0) * (10.0 * p) == m * p
  {
    var q := m / 10.0;
    assert q * (10.0 * p) == (q * 10.0) * p;
  }

  lemma ScaleStep(m: real, e: int)
    ensures Scale(m, e - 1) == Scale(m / 10.0, e)
  {
    if e > 0 {
      MulTen(m, Pow(10.0, e - 1));
    } else {
      var k: nat := -e;
      PowPositive(k);
      DivTwice(m, 10.0, Pow(10.0, k));
      assert -(e - 1) == k + 1;
    }
  }

  /** Moving the point `k` places is a change of the exponent. */
  lemma {:induction false} ScaleShift(m: real, e: int, k: nat)
    ensures Pow(10.0, k) > 0.0 && Scale(m, e - k) == Scale(m / Pow(10.0, k), e)
    decreases k
  {
    PowPositive(k);
    if k > 0 {
      var p := Pow(10.0, k - 1);
      assert Scale(m, e - k) == Scale(m / 10.0, e - (k - 1)) by { ScaleStep(m, e - (k - 1)); }
      ScaleShift(m / 10.0, e, k - 1);
      assert m / 10.0 / p == m / (10.0 * p) by { DivTwice(m, 10.0, p); }
    }
  }

  lemma RealOf(n: int, a: int, b: int, c: int)
    requires n == a * b + c
    ensures n as real == a as real * b as real + c as real
  {
  }

  /** Digits read as one integer, or as a whole part and a fraction. */
  lemma SumOfDigits(whole: string, fraction: string)
    requires AllDecimal(whole) && AllDecimal(fraction)
    ensures AllDecimal(whole + fraction) && Pow(10.0, |fraction|) > 0.0
    ensures NatOf(whole + fraction) as real / Pow(10.0, |fraction|) ==
            NatOf(whole) as real + NatOf(fraction) as real / Pow(10.0, |fraction|)
  {
    var k := |fraction|;
    NatOfConcat(whole, fraction);
    PowPositive(k);
    PowIsPow10(k);
    SumShape(NatOf(whole + fraction), NatOf(whole), NatOf(fraction), Pow10(k), Pow(10.0, k));
  }

  lemma SumShape(n: nat, w: nat, f: nat, p: nat, q: real)
    requires n == w * p + f && q == p as real && q > 0.0
    ensures n as real / q == w as real + f as real / q
  {
    RealOf(n, w, p, f);
    PointInPlace(w as real, f as real, q);
  }

  lemma DigitsAreExact(whole: string, fraction: string, e: int)
    requires AllDecimal(whole) && AllDecimal(fraction)
    ensures AllDecimal(whole + fraction) && Pow(10.0, |fraction|) > 0.0
    ensures Scale(NatOf(whole + fraction) as real, e - |fraction|) ==
            Scale(NatOf(whole) as real + NatOf(fraction) as real / Pow(10.0, |fraction|), e)
  {
    SumOfDigits(whole, fraction);
    ScaleShift(NatOf(whole + fraction) as real, e, |fraction|);
  }

  /** A numeral of one to eighteen digits whose adjusted exponent is in range has its exact value: its
      sign, times its whole part plus its fraction, times ten to its exponent. */
  lemma ShortNumeralsAreExact(negative: bool, whole: string, fraction: string, e: int)
    requires AllDecimal(whole) && AllDecimal(fraction) && |whole + fraction| <= 18
    requires -MAX_EXPONENT <= e - |fraction| <= MAX_EXPONENT
    ensures Pow(10.0, |fraction|) > 0.0
    ensures var x := Scale(NatOf(whole) as real + NatOf(fraction) as real / Pow(10.0, |fraction|), e);
            FloatValue(negative, whole, fraction, e) == if negative then -x else x
  {
    var digits := whole + fraction;
    assert digits[..|digits|] == digits;
    DigitsAreExact(whole, fraction, e);
    assert Clamp(|whole| - |digits| + e) == e - |fraction|;
  }

  lemma PointInPlace(w: real, f: real, p: real)
    requires p > 0.0
    ensures (w * p + f) / p == w + f / p
  {
    assert (w + f / p) * p == w * p + (f / p) * p;
  }

  // ---------------------------------------------------------------- numerals as they are written

  lemma DecimalTable(d: nat)
    requires d < 10
    ensures IsDecimal("0123456789"[d]) && DecimalOf("0123456789"[d]) == d
  {
  }

  /** What may follow the digits: nothing, or a letter, perhaps a sign, and the digits of the exponent. */
  datatype Exponent = NoExponent | Exponent(letter: char, sign: string, digits: string)

  ghost predicate ExponentFits(x: Exponent) {
    x.Exponent? ==> (x.letter == 'e' || x.letter == 'E') && (x.sign == "" || x.sign == "+" || x.sign == "-") && AllDecimal(x.digits)
  }

  function ExponentText(x: Exponent): string {
    match x
    case NoExponent => ""
    case Exponent(letter, sign, digits) => [letter] + (sign + digits)
  }

  ghost function ExponentValue(x: Exponent): int
    requires ExponentFits(x)
  {
    match x
    case NoExponent => 0
    case Exponent(_, sign, digits) => var n: int := NatOf(digits); if sign == "-" then -n else n
  }

  function MantissaText(whole: string, point: bool, fraction: string): string {
    whole + if point then "." + fraction else ""
  }

  /** A character that does not belong to the numeral before it. */
  ghost predicate EndsNumeral(c: char, point: bool, x: Exponent) {
    && !IsDecimal(c)
    && (x.NoExponent? ==> c != 'e' && c != 'E' && (c == '.' ==> point))
    && (x.Exponent? && x.sign == "" && x.digits == "" ==> c != '+' && c != '-')
  }

  lemma {:induction false} DecimalsArePassed(s: string, p: nat, q: nat, point: bool)
    requires p <= q <= |s| && forall i :: p <= i < q ==> IsDecimal(s[i])
    ensures MantissaEnd(s, p, point) == MantissaEnd(s, q, point)
    decreases q - p
  {
    if p < q { DecimalsArePassed(s, p + 1, q, point); }
  }

  lemma MantissaParts(whole: string, point: bool, fraction: string)
    requires AllDecimal(whole) && AllDecimal(fraction) && (!point ==> fraction == "")
    ensures var m := MantissaText(whole, point, fraction); Whole(m) == whole && Fraction(m) == fraction
  {
    var m := MantissaText(whole, point, fraction);
    assert forall i :: 0 <= i < |whole| ==> m[i] == whole[i] != '.';
    FirstIndexIs('.', m, |whole|);
    assert m[..|whole|] == whole;
    if point { assert m[|whole| + 1..] == fraction; }
  }

  lemma MantissaRead(s: string, p: nat, end: nat, whole: string, point: bool, fraction: string)
    requires AllDecimal(whole) && AllDecimal(fraction) && (!point ==> fraction == "")
    requires At(s, p, MantissaText(whole, point, fraction)) && end == p + |MantissaText(whole, point, fraction)|
    requires end < |s| ==> !IsDecimal(s[end]) && (s[end] == '.' ==> point)
    ensures MantissaEnd(s, p, false) == end
  {
    var w := p + |whole|;
    AtParts(s, p, whole, if point then "." + fraction else "");
    DecimalsAt(s, p, whole, false);
    if point {
      AtChar(s, w, "." + fraction);
      assert ("." + fraction)[1..] == fraction;
      DecimalsAt(s, w + 1, fraction, true);
    }
  }

  lemma DecimalsAt(s: string, p: nat, t: string, point: bool)
    requires At(s, p, t) && AllDecimal(t)
    ensures MantissaEnd(s, p, point) == MantissaEnd(s, p + |t|, point)
  {
    forall i | p <= i < p + |t| ensures IsDecimal(s[i]) { assert CharAt(s, p, t, i - p); }
    DecimalsArePassed(s, p, p + |t|, point);
  }

  lemma {:induction false} DecimalEndIs(s: string, p: nat, q: nat)
    requires p <= q <= |s| && AllDecimal(s[p..q]) && (q < |s| ==> !IsDecimal(s[q]))
    ensures DecimalEnd(s, p) == q
    decreases q - p
  {
    if p < q {
      assert s[p] == s[p..q][0] && s[p + 1..q] == s[p..q][1..];
      DecimalEndIs(s, p + 1, q);
    }
  }

  lemma ExponentIs(s: string, p: nat, q: nat, e: nat, signed: bool, minus: bool, digits: string)
    requires p < q <= e <= |s| && q == (if signed then p + 2 else p + 1)
    requires s[p] == 'e' || s[p] == 'E'
    requires if signed then s[p + 1] == (if minus then '-' else '+') else !minus && (p + 1 < |s| ==> s[p + 1] != '+' && s[p + 1] != '-')
    requires s[q..e] == digits && AllDecimal(digits) && (e < |s| ==> !IsDecimal(s[e]))
    ensures ExponentAt(s, p) == (var n: int := NatOf(digits); if minus then -n else n, e)
  {
    DecimalEndIs(s, q, e);
  }

  /** An exponent is read to its end. */
  lemma ExponentRead(s: string, p: nat, e: nat, point: bool, x: Exponent)
    requires x.Exponent? && ExponentFits(x) && At(s, p, [x.letter] + (x.sign + x.digits)) && e == p + 1 + |x.sign| + |x.digits|
    requires e < |s| ==> EndsNumeral(s[e], point, x)
    ensures ExponentAt(s, p) == (ExponentValue(x), e)
  {
    var q := p + 1 + |x.sign|;
    AtParts(s, p, [x.letter], x.sign + x.digits);
    AtParts(s, p + 1, x.sign, x.digits);
    AtChar(s, p, [x.letter]);
    AtSlice(s, q, x.digits);
    if x.sign == "" {
      if x.digits != "" { AtChar(s, q, x.digits); }
      ExponentIs(s, p, q, e, false, false, x.digits);
    } else {
      AtChar(s, p + 1, x.sign);
      ExponentIs(s, p, q, e, true, x.sign == "-", x.digits);
    }
  }

  lemma ExponentReadAny(s: string, p: nat, e: nat, point: bool, x: Exponent)
    requires ExponentFits(x) && At(s, p, ExponentText(x)) && e == p + |ExponentText(x)|
    requires e < |s| ==> EndsNumeral(s[e], point, x)
    ensures ExponentAt(s, p) == (ExponentValue(x), e)
    ensures p < |s| ==> !IsDecimal(s[p]) && (s[p] == '.' ==> point)
  {
    if x.Exponent? {
      AtChar(s, p, ExponentText(x));
      ExponentRead(s, p, e, point, x);
    }
  }

  /** The scanner finds these parts, and stops at `q`. */
  ghost predicate Reads(s: string, negative: bool, whole: string, fraction: string, e: int, q: nat) {
    var p := AfterSigns(s, 0);
    var end := MantissaEnd(s, p, false);
    && Negative(s, 0) == negative && Whole(s[p..end]) == whole && Fraction(s[p..end]) == fraction
    && ExponentAt(s, end) == (e, q)
  }

  lemma ReadsValue(s: string, negative: bool, whole: string, fraction: string, e: int, q: nat)
    requires Reads(s, negative, whole, fraction, e, q) && AllDecimal(whole) && AllDecimal(fraction) && whole + fraction != ""
    ensures ScanFlt(s) == (FloatValue(negative, whole, fraction, e), q)
  {
    var p := AfterSigns(s, 0);
    ScanUnsignedIs(negative, s, p, MantissaEnd(s, p, false), whole, fraction, e, q);
  }

  /** What the scanner makes of a numeral as it is written: any number of signs, of which each minus counts,
      digits with at most one point among them, and an exponent. It reads them all, up to `q`. */
  lemma NumeralIsScanned(signs: string, whole: string, point: bool, fraction: string, x: Exponent, s: string, m: string, end: nat, q: nat)
    requires AllSigns(signs) && AllDecimal(whole) && AllDecimal(fraction) && (!point ==> fraction == "") && whole + fraction != ""
    requires m == MantissaText(whole, point, fraction) && ExponentFits(x)
    requires At(s, 0, signs) && At(s, |signs|, m) && end == |signs| + |m|
    requires At(s, end, ExponentText(x)) && q == end + |ExponentText(x)| && (q < |s| ==> EndsNumeral(s[q], point, x))
    ensures ScanFlt(s) == (FloatValue(Odd(signs), whole, fraction, ExponentValue(x)), q)
  {
    NumeralAt(signs, whole, point, fraction, x, s, m, end, q);
    ReadsValue(s, Odd(signs), whole, fraction, ExponentValue(x), q);
  }

  lemma NumeralAt(signs: string, whole: string, point: bool, fraction: string, x: Exponent, s: string, m: string, end: nat, q: nat)
    requires AllSigns(signs) && AllDecimal(whole) && AllDecimal(fraction) && (!point ==> fraction == "") && whole + fraction != ""
    requires m == MantissaText(whole, point, fraction) && ExponentFits(x)
    requires At(s, 0, signs) && At(s, |signs|, m) && end == |signs| + |m|
    requires At(s, end, ExponentText(x)) && q == end + |ExponentText(x)| && (q < |s| ==> EndsNumeral(s[q], point, x))
    ensures Reads(s, Odd(signs), whole, fraction, ExponentValue(x), q)
  {
    FirstOfMantissa(whole, point, fraction);
    SignsOfNumeral(s, signs, m);
    ExponentReadAny(s, end, q, point, x);
    MantissaFound(s, |signs|, end, m, whole, point, fraction);
  }

  lemma MantissaFound(s: string, p: nat, end: nat, m: string, whole: string, point: bool, fraction: string)
    requires AllDecimal(whole) && AllDecimal(fraction) && (!point ==> fraction == "")
    requires m == MantissaText(whole, point, fraction) && At(s, p, m) && end == p + |m|
    requires end < |s| ==> !IsDecimal(s[end]) && (s[end] == '.' ==> point)
    ensures MantissaEnd(s, p, false) == end && Whole(s[p..end]) == whole && Fraction(s[p..end]) == fraction
  {
    MantissaRead(s, p, end, whole, point, fraction);
    MantissaParts(whole, point, fraction);
    AtSlice(s, p, m);
  }

  lemma FirstOfMantissa(whole: string, point: bool, fraction: string)
    requires AllDecimal(whole) && (!point ==> fraction == "") && whole + fraction != ""
    ensures var m := MantissaText(whole, point, fraction); m != "" && (IsDecimal(m[0]) || m[0] == '.')
  {
  }

  lemma SignsOfNumeral(s: string, signs: string, m: string)
    requires AllSigns(signs) && At(s, 0, signs) && At(s, |signs|, m) && m != "" && (IsDecimal(m[0]) || m[0] == '.')
    ensures AfterSigns(s, 0) == |signs| && Negative(s, 0) == Odd(signs)
  {
    AtSlice(s, 0, signs);
    AtChar(s, |signs|, m);
    SignsAt(s, 0, signs);
  }
}
