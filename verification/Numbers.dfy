/** Printing and scanning of 64-bit integers. */
module Numbers {
  import opened Text

  const INT_MIN := -0x8000_0000_0000_0000
  const INT_MAX := 0x7FFF_FFFF_FFFF_FFFF

  predicate IsInt(x: int) {
    INT_MIN <= x <= INT_MAX
  }

  /** Two's complement wrap-around. */
  function Wrap(x: int): int {
    (x - INT_MIN) % 0x1_0000_0000_0000_0000 + INT_MIN
  }

  /** Negation, which leaves the most negative value as it is. */
  function Neg(x: int): int
    requires IsInt(x)
  {
    if x == INT_MIN then INT_MIN else -x
  }

  function DigitChar(d: nat): char
    requires d < 36
  {
    if d >= 10 then 'a' + (d - 10) as char else '0' + d as char
  }

  /** The digits of a positive number, most significant first; none for zero. */
  function Digits(n: nat, radix: nat): (s: string)
    requires 2 <= radix <= 36
    ensures n > 0 <==> s != ""
  {
    if n == 0 then "" else Digits(n / radix, radix) + [DigitChar(n % radix)]
  }

  /** The text of a number in a radix, the prefix coming after the sign. */
  function NumberText(value: int, radix: nat, prefix: string): string
    requires 2 <= radix <= 36
  {
    if value == 0 then prefix + "0"
    else if value < 0 then "-" + prefix + Digits(-value, radix)
    else prefix + Digits(value, radix)
  }

  /** The number of which the printer writes the digits: the most negative value cannot be negated,
      stays negative, and has none. */
  function Magnitude(value: int): nat
    requires IsInt(value)
  {
    if value >= 0 then value else if value == INT_MIN then 0 else -value
  }

  function Sign(value: int): string {
    if value < 0 then "-" else ""
  }

  function Body(value: int, radix: nat): string
    requires 2 <= radix <= 36 && IsInt(value)
  {
    if value == 0 then "0" else Digits(Magnitude(value), radix)
  }

  /** What the two-pass printer writes. */
  function PrintedText(value: int, radix: nat, prefix: string): string
    requires 2 <= radix <= 36 && IsInt(value)
  {
    Sign(value) + prefix + Body(value, radix)
  }

  /** That is the text of the number, exactly for every value but the most negative. */
  lemma PrintedIsText(value: int, radix: nat, prefix: string)
    requires 2 <= radix <= 36 && IsInt(value)
    ensures PrintedText(value, radix, prefix) == NumberText(value, radix, prefix) <==> value != INT_MIN
    ensures PrintedText(INT_MIN, radix, prefix) == "-" + prefix
  {
    var text := "-" + prefix;
    assert text + "" == text;
    assert "" + prefix == prefix;
    assert Digits(-INT_MIN, radix) != "";
  }

  lemma DivShrinks(t: nat, radix: nat)
    requires t > 0 && radix >= 2
    ensures t / radix < t
  {
  }

  /** First pass: how many digits. */
  method CountDigits(t0: int, radix: nat) returns (n: nat)
    requires 2 <= radix <= 36
    ensures n == |Digits(if t0 > 0 then t0 else 0, radix)|
  {
    var t := t0;
    n := 0;
    if t <= 0 { return; }
    while t > 0
      invariant t >= 0 && n + |Digits(t, radix)| == |Digits(t0, radix)|
    {
      DivShrinks(t, radix);
      n := n + 1;
      t := t / radix;
    }
  }

  /** Second pass: the digits, last to first, ending at `end`. */
  method WriteDigits(t0: int, radix: nat, buf: array<char>, end: nat) returns (p: nat)
    requires 2 <= radix <= 36
    requires var all := Digits(if t0 > 0 then t0 else 0, radix); |all| <= end <= buf.Length
    modifies buf
    ensures p <= end && buf[p..end] == Digits(if t0 > 0 then t0 else 0, radix)
    ensures forall i :: end <= i < buf.Length ==> buf[i] == old(buf[i])
  {
    p := end;
    var t := t0;
    if t <= 0 { return; }
    ghost var all := Digits(t0, radix);
    while t > 0
      invariant t >= 0 && p <= end && |all| == |Digits(t, radix)| + (end - p)
      invariant all == Digits(t, radix) + buf[p..end]
      invariant forall i :: end <= i < buf.Length ==> buf[i] == old(buf[i])
    {
      DivShrinks(t, radix);
      ghost var done := buf[p..end];
      var rem := t % radix;
      p := p - 1;
      buf[p] := DigitChar(rem);
      assert buf[p..end] == [DigitChar(rem)] + done;
      MoveDigit(all, Digits(t / radix, radix), DigitChar(rem), done);
      t := t / radix;
    }
  }

  lemma MoveDigit(all: string, front: string, d: char, done: string)
    requires all == (front + [d]) + done
    ensures all == front + ([d] + done)
  {
  }

  /** The printer. Without a buffer it only tells the length; with one that is too small it writes
      nothing; else it writes the text, and a null character if there is room, and nothing else. */
  method IntToStr(value: int, radix: nat, prefix: string, buf: array?<char>, size: nat) returns (n: int)
    requires IsInt(value) && 2 <= radix <= 36
    requires buf != null ==> size <= buf.Length
    modifies buf
    ensures buf == null ==> n == |PrintedText(value, radix, prefix)|
    ensures buf != null ==>
      var text := PrintedText(value, radix, prefix);
      if size < |text| then n == -1 && forall i :: 0 <= i < buf.Length ==> buf[i] == old(buf[i])
      else
        && n == |text| && buf[..n] == text
        && (size > n ==> buf[n] == '\0')
        && (forall i :: n < i < buf.Length || i == n == size < buf.Length ==> buf[i] == old(buf[i]))
  {
    var sign := if value < 0 then 1 else 0;
    var t := if value < 0 then Neg(value) else value;
    var digits := 1;
    if value != 0 { digits := CountDigits(t, radix); }
    var len := sign + |prefix| + digits;
    if buf == null { return len; }
    if size < len { return -1; }
    if size > len { buf[len] := '\0'; }
    if value == 0 {
      buf[len - 1] := '0';
      assert buf[len - 1..len] == "0";
    } else {
      var p := WriteDigits(t, radix, buf, len);
    }
    WritePrefix(value, Body(value, radix), prefix, buf, len);
    return len;
  }

  /** The prefix at the front, after the sign of a negative number. */
  method WritePrefix(value: int, ghost body: string, prefix: string, buf: array<char>, len: nat)
    requires len <= buf.Length && len == |Sign(value)| + |prefix| + |body|
    requires buf[len - |body|..len] == body
    modifies buf
    ensures buf[..len] == Sign(value) + prefix + body
    ensures forall i :: len <= i < buf.Length ==> buf[i] == old(buf[i])
  {
    var sign := if value < 0 then 1 else 0;
    ghost var p := sign + |prefix|;
    var i := 0;
    while i < |prefix|
      invariant 0 <= i <= |prefix|
      invariant forall j :: 0 <= j < i ==> buf[sign + j] == prefix[j]
      invariant forall j :: p <= j < buf.Length ==> buf[j] == old(buf[j])
    {
      buf[sign + i] := prefix[i];
      i := i + 1;
    }
    if value < 0 { buf[0] := '-'; }
    assert buf[p..len] == body;
    ThreeParts(buf[..len], Sign(value), prefix, body);
  }

  lemma ThreeParts(s: string, a: string, b: string, c: string)
    requires |s| == |a| + |b| + |c| && s[|a| + |b|..] == c
    requires (forall i :: 0 <= i < |a| ==> s[i] == a[i]) && forall j :: 0 <= j < |b| ==> s[|a| + j] == b[j]
    ensures s == a + b + c
  {
    assert s[..|a|] == a;
    assert s[|a|..|a| + |b|] == b;
  }

  // ---------------------------------------------------------------- scanning

  /** The value read and how many characters were consumed. */
  datatype Scanned = Scanned(value: int, used: nat)

  /** The value of a digit in any base up to 36, or -1. */
  function DigitValue(c: char): int {
    if '0' <= c <= '9' then c as int - '0' as int
    else if 'A' <= c <= 'Z' then c as int - 'A' as int + 10
    else if 'a' <= c <= 'z' then c as int - 'a' as int + 10
    else -1
  }

  predicate IsDigit(c: char, base: nat) {
    0 <= DigitValue(c) < base
  }

  /** Reads digits from `p` on, in 64-bit arithmetic. */
  function ScanDigits(s: string, p: nat, base: nat, n: int): Scanned
    requires p <= |s|
    decreases |s| - p
  {
    if p == |s| || !IsDigit(s[p], base) then Scanned(n, p)
    else ScanDigits(s, p + 1, base, Wrap(n * base + DigitValue(s[p])))
  }

  /** The number that the digits from `p` up to `q` stand for. */
  function Positional(s: string, p: nat, q: nat, base: nat): int
    requires p <= q <= |s|
    decreases q
  {
    if p == q then 0 else Positional(s, p, q - 1, base) * base + DigitValue(s[q - 1])
  }

  /** Where the digits from `p` on end. */
  function DigitsEnd(s: string, p: nat, base: nat): (q: nat)
    requires p <= |s|
    ensures p <= q <= |s| && (forall i :: p <= i < q ==> IsDigit(s[i], base)) && (q < |s| ==> !IsDigit(s[q], base))
    decreases |s| - p
  {
    if p == |s| || !IsDigit(s[p], base) then p else DigitsEnd(s, p + 1, base)
  }

  const WORD := 0x1_0000_0000_0000_0000

  lemma WrapPeriod(x: int, k: int)
    ensures Wrap(x + WORD * k) == Wrap(x)
  {
    var y := x - INT_MIN;
    assert y + WORD * k == WORD * (y / WORD + k) + y % WORD;
  }

  /** Wrapping on the way makes no difference to what is wrapped in the end. */
  lemma WrapStep(a: int, base: int, d: int)
    ensures Wrap(Wrap(a) * base + d) == Wrap(a * base + d)
  {
    var k := (a - INT_MIN) / WORD;
    assert Wrap(a) == a - WORD * k;
    assert (a - WORD * k) * base == a * base + WORD * -(k * base);
    WrapPeriod(a * base + d, -(k * base));
  }

  lemma PositionalStep(s: string, p: nat, q: nat, base: nat)
    requires p < q <= |s|
    ensures Wrap(Wrap(Positional(s, p, q - 1, base)) * base + DigitValue(s[q - 1])) == Wrap(Positional(s, p, q, base))
  {
    WrapStep(Positional(s, p, q - 1, base), base, DigitValue(s[q - 1]));
  }

  lemma {:induction false} ScanFrom(s: string, p: nat, q: nat, base: nat)
    requires p <= q <= |s| && forall i :: p <= i < q ==> IsDigit(s[i], base)
    ensures ScanDigits(s, p, base, 0) == ScanDigits(s, q, base, Wrap(Positional(s, p, q, base)))
    decreases q
  {
    if p < q {
      ScanFrom(s, p, q - 1, base);
      PositionalStep(s, p, q, base);
    }
  }

  /** Digits are read as far as they go, as the number they stand for, wrapped around. */
  lemma ScanIsPositional(s: string, p: nat, base: nat)
    requires p <= |s|
    ensures var q := DigitsEnd(s, p, base); ScanDigits(s, p, base, 0) == Scanned(Wrap(Positional(s, p, q, base)), q)
  {
    ScanFrom(s, p, DigitsEnd(s, p, base), base);
  }

  predicate IsSign(c: char) {
    c == '-' || c == '+'
  }

  /** Whether an odd number of minus signs is among the first signs from `p` on. */
  function Negative(s: string, p: nat): bool
    requires p <= |s|
    decreases |s| - p
  {
    if p == |s| || !IsSign(s[p]) then false
    else if s[p] == '-' then !Negative(s, p + 1) else Negative(s, p + 1)
  }

  function AfterSigns(s: string, p: nat): (q: nat)
    requires p <= |s|
    ensures p <= q <= |s|
    decreases |s| - p
  {
    if p == |s| || !IsSign(s[p]) then p else AfterSigns(s, p + 1)
  }

  /** The base to read in and where the digits begin: base 0 looks at a leading 0, 0x or 0b, bases 16
      and 2 allow theirs. */
  function BaseAt(s: string, p: nat, base: nat): (r: (nat, nat))
    requires p <= |s|
    ensures p <= r.1 <= |s|
  {
    var zero := p < |s| && s[p] == '0';
    var x := zero && p + 1 < |s| && s[p + 1] in "xX";
    var b := zero && p + 1 < |s| && s[p + 1] in "bB";
    if base == 0 then
      if x then (16, p + 2) else if b then (2, p + 2) else if zero then (8, p + 1) else (10, p)
    else if (base == 16 && x) || (base == 2 && b) then (base, p + 2)
    else (base, p)
  }

  function ScanInt(strip: bool, sp: char -> bool, s: string, base: nat): Scanned {
    var p := if strip then FirstWhere(Not(sp), s, 0) else 0;
    var (b, q) := BaseAt(s, AfterSigns(s, p), base);
    var r := ScanDigits(s, q, b, 0);
    if Negative(s, p) then Scanned(Wrap(-r.value), r.used) else r
  }

  /** What a text stands for: the digits after spaces, signs and prefix as far as they go, as a number in
      their base with the sign, wrapped around. */
  function Meant(strip: bool, sp: char -> bool, s: string, base: nat): Scanned {
    var p := if strip then FirstWhere(Not(sp), s, 0) else 0;
    var (b, q) := BaseAt(s, AfterSigns(s, p), base);
    var end := DigitsEnd(s, q, b);
    var n := Positional(s, q, end, b);
    Scanned(Wrap(if Negative(s, p) then -n else n), end)
  }

  lemma ScansWhatIsMeant(strip: bool, sp: char -> bool, s: string, base: nat)
    ensures ScanInt(strip, sp, s, base) == Meant(strip, sp, s, base)
  {
    var p := if strip then FirstWhere(Not(sp), s, 0) else 0;
    var (b, q) := BaseAt(s, AfterSigns(s, p), base);
    ScanIsPositional(s, q, b);
    WrapStep(Positional(s, q, DigitsEnd(s, q, b), b), -1, 0);
  }

  method ReadSpaces(sp: char -> bool, s: string) returns (p: nat)
    ensures p == FirstWhere(Not(sp), s, 0)
  {
    p := 0;
    while p < |s| && sp(s[p])
      invariant 0 <= p <= |s|
      invariant forall i :: 0 <= i < p ==> sp(s[i])
    {
      p := p + 1;
    }
    FirstWhereIs(Not(sp), s, 0, p);
  }

  method ReadSigns(s: string, start: nat) returns (negative: bool, p: nat)
    requires start <= |s|
    ensures negative == Negative(s, start) && p == AfterSigns(s, start)
  {
    p, negative := start, false;
    while p < |s| && IsSign(s[p])
      invariant start <= p <= |s|
      invariant AfterSigns(s, start) == AfterSigns(s, p)
      invariant Negative(s, start) == (negative != Negative(s, p))
    {
      if s[p] == '-' { negative := !negative; }
      p := p + 1;
    }
  }

  method ReadBase(s: string, start: nat, base0: nat) returns (base: nat, p: nat)
    requires start <= |s|
    ensures (base, p) == BaseAt(s, start, base0)
  {
    p, base := start, base0;
    var rem := |s| - p;
    if base == 0 {
      if rem >= 1 && s[p] == '0' {
        p := p + 1;
        if rem == 1 { base := 8; }
        else if s[p] == 'x' || s[p] == 'X' { p := p + 1; base := 16; }
        else if s[p] == 'b' || s[p] == 'B' { p := p + 1; base := 2; }
        else { base := 8; }
      } else { base := 10; }
    } else if rem >= 2 && base == 16 {
      if s[p] == '0' && (s[p + 1] == 'x' || s[p + 1] == 'X') { p := p + 2; }
    } else if rem >= 2 && base == 2 {
      if s[p] == '0' && (s[p + 1] == 'b' || s[p + 1] == 'B') { p := p + 2; }
    }
  }

  /** The scanner. */
  method StrToInt(strip: bool, sp: char -> bool, s: string, base0: nat) returns (value: int, used: nat)
    requires base0 <= 36
    ensures Scanned(value, used) == ScanInt(strip, sp, s, base0)
    ensures Scanned(value, used) == Meant(strip, sp, s, base0)
  {
    ScansWhatIsMeant(strip, sp, s, base0);
    var p := 0;
    if strip { p := ReadSpaces(sp, s); }
    var negative, base;
    negative, p := ReadSigns(s, p);
    base, p := ReadBase(s, p, base0);
    var n := 0;
    ghost var goal := ScanDigits(s, p, base, 0);
    while p < |s| && IsDigit(s[p], base)
      invariant 0 <= p <= |s|
      invariant ScanDigits(s, p, base, n) == goal
    {
      n := Wrap(n * base + DigitValue(s[p]));
      p := p + 1;
    }
    value, used := if negative then Wrap(-n) else n, p;
  }

  lemma DigitRoundTrip(d: nat)
    requires d < 36
    ensures DigitValue(DigitChar(d)) == d && !IsSign(DigitChar(d))
    ensures d > 0 ==> DigitChar(d) != '0'
  {
  }

  lemma DivMod(n: nat, radix: nat)
    requires radix >= 2
    ensures n / radix * radix + n % radix == n && n / radix <= n
  {
  }

  lemma WrapId(x: int)
    requires IsInt(x)
    ensures Wrap(x) == x
  {
  }

  /** Reading the digits of a number gives the number, with no wrap-around on the way. */
  lemma {:induction false} ScanOfDigits(s: string, p: nat, n: nat, radix: nat)
    requires 2 <= radix <= 36 && n <= INT_MAX
    requires p + |Digits(n, radix)| <= |s| && s[p..p + |Digits(n, radix)|] == Digits(n, radix)
    ensures ScanDigits(s, p, radix, 0) == ScanDigits(s, p + |Digits(n, radix)|, radix, n)
    decreases n
  {
    if n > 0 {
      var all, front, d := Digits(n, radix), Digits(n / radix, radix), n % radix;
      DivMod(n, radix);
      assert s[p..p + |front|] == s[p..p + |all|][..|front|] == front;
      ScanOfDigits(s, p, n / radix, radix);
      var q := p + |front|;
      assert s[q] == s[p..p + |all|][|front|] == DigitChar(d);
      DigitRoundTrip(d);
      WrapId(n);
    }
  }

  /** A number of one digit is its digit. */
  lemma OneDigit(n: nat, radix: nat)
    requires radix >= 2 && n / radix == 0
    ensures n % radix == n
  {
  }

  /** The first digit of a positive number is a digit, and not zero. */
  lemma {:induction false} LeadingDigit(n: nat, radix: nat)
    requires 2 <= radix <= 36 && n > 0
    ensures var c := Digits(n, radix)[0];
            c != '0' && !IsSign(c) && IsDigit(c, radix) && (radix <= 10 ==> c <= '9')
    decreases n
  {
    DivShrinks(n, radix);
    if n / radix > 0 {
      LeadingDigit(n / radix, radix);
      assert Digits(n, radix)[0] == Digits(n / radix, radix)[0];
    } else {
      OneDigit(n, radix);
      DigitRoundTrip(n % radix);
    }
  }

  /** A prefix and the bases in which the scanner undoes printing in a radix with it. */
  predicate Matching(radix: nat, prefix: string, base: nat) {
    || (prefix == "" && (base == radix || (radix == 10 && base == 0)))
    || (prefix == "0" && (base == radix || (radix == 8 && base == 0)))
    || (radix == 16 && (prefix == "0x" || prefix == "0X") && (base == 0 || base == 16))
    || (radix == 2 && (prefix == "0b" || prefix == "0B") && (base == 0 || base == 2))
  }

  lemma MatchingZero(radix: nat, prefix: string, base: nat)
    requires Matching(radix, prefix, base) && prefix != ""
    ensures prefix[0] == '0'
  {
  }

  /** Reading a printed body to the end of the text. */
  lemma ScanBody(s: string, q: nat, value: int, radix: nat)
    requires 2 <= radix <= 36 && IsInt(value) && q <= |s| && s[q..] == Body(value, radix)
    ensures ScanDigits(s, q, radix, 0) == Scanned(Magnitude(value), |s|)
  {
    if value == 0 {
      assert s[q] == s[q..][0] == '0' && |s| == q + 1;
      DigitRoundTrip(0);
      WrapId(0);
    } else {
      var all := Digits(Magnitude(value), radix);
      assert |s| == q + |all| && s[q..q + |all|] == s[q..];
      ScanOfDigits(s, q, Magnitude(value), radix);
    }
  }

  /** A printed number without its sign, taken apart. */
  lemma PrintedParts(s: string, p: nat, value: int, radix: nat, prefix: string)
    requires 2 <= radix <= 36 && IsInt(value) && value != INT_MIN
    requires p <= |s| && s[p..] == prefix + Body(value, radix)
    ensures |s| > p + |prefix| && s[p + |prefix|..] == Body(value, radix)
    ensures forall i :: 0 <= i < |prefix| ==> s[p + i] == prefix[i]
    ensures var c := s[p + |prefix|]; !IsSign(c) && (c == '0' <==> value == 0) && IsDigit(c, radix) && (radix <= 10 ==> c <= '9')
    ensures value == 0 ==> |s| == p + |prefix| + 1
  {
    var body, k := Body(value, radix), |prefix|;
    assert s[p + k..] == s[p..][k..] == body;
    assert forall i :: 0 <= i < k ==> s[p + i] == s[p..][i];
    assert s[p + k] == body[0];
    if value != 0 { LeadingDigit(Magnitude(value), radix); }
  }

  /** Where the digits of a printed number are looked for, and in which base. */
  lemma BaseOfPrinted(s: string, p: nat, value: int, radix: nat, prefix: string, base: nat)
    requires 2 <= radix <= 36 && IsInt(value) && value != INT_MIN && Matching(radix, prefix, base)
    requires p <= |s| && s[p..] == prefix + Body(value, radix)
    ensures p < |s| && !IsSign(s[p])
    ensures var (b, q) := BaseAt(s, p, base);
            ScanDigits(s, q, b, 0) == Scanned(Magnitude(value), |s|)
  {
    PrintedParts(s, p, value, radix, prefix);
    ScanBody(s, p + |prefix|, value, radix);
    if prefix != "" {
      MatchingZero(radix, prefix, base);
      assert s[p + 0] == prefix[0];
    }
    BaseChosen(s, p, value, radix, prefix, base);
    ChosenReads(s, p, Magnitude(value), radix, prefix, base);
  }

  /** Whether the prefix is read as digits or stepped over, and even if a lone zero is taken for a prefix, the
      same number is read. */
  lemma ChosenReads(s: string, p: nat, n: nat, radix: nat, prefix: string, base: nat)
    requires p + |prefix| <= |s| && radix > 0 && ScanDigits(s, p + |prefix|, radix, 0) == Scanned(n, |s|)
    requires prefix == "0" ==> s[p] == '0'
    requires BaseAt(s, p, base) ==
             if prefix == "0" && base != 0 then (radix, p)
             else if prefix == "" && base == 0 && n == 0 then (8, p + 1)
             else (radix, p + |prefix|)
    requires n == 0 ==> |s| == p + |prefix| + 1
    ensures var (b, q) := BaseAt(s, p, base); ScanDigits(s, q, b, 0) == Scanned(n, |s|)
  {
    if prefix == "0" && base != 0 {
      ScanLeadingZero(s, p, radix);
    }
  }

  lemma ScanLeadingZero(s: string, p: nat, radix: nat)
    requires p < |s| && s[p] == '0' && radix > 0
    ensures ScanDigits(s, p, radix, 0) == ScanDigits(s, p + 1, radix, 0)
  {
    WrapId(0);
  }

  lemma BaseChosen(s: string, p: nat, value: int, radix: nat, prefix: string, base: nat)
    requires 2 <= radix <= 36 && Matching(radix, prefix, base) && |s| > p + |prefix|
    requires forall i :: 0 <= i < |prefix| ==> s[p + i] == prefix[i]
    requires var c := s[p + |prefix|]; (c == '0' <==> value == 0) && IsDigit(c, radix) && (radix <= 10 ==> c <= '9')
    requires value == 0 ==> |s| == p + |prefix| + 1
    ensures BaseAt(s, p, base) ==
            if prefix == "0" && base != 0 then (radix, p)
            else if prefix == "" && base == 0 && value == 0 then (8, p + 1)
            else (radix, p + |prefix|)
  {
    assert |prefix| > 0 ==> s[p + 0] == prefix[0];
    assert |prefix| > 1 ==> s[p + 1] == prefix[1];
  }

  lemma SignsOfPrinted(s: string, value: int)
    requires s != "" && (value < 0 ==> s[0] == '-' && |s| > 1 && !IsSign(s[1])) && (value >= 0 ==> !IsSign(s[0]))
    ensures Negative(s, 0) == (value < 0)
    ensures AfterSigns(s, 0) == if value < 0 then 1 else 0
  {
  }

  /** Printing and then scanning returns the value and consumes the whole text, in every radix, for
      every prefix and base that are listed as matching, and for every value but the most negative. */
  lemma PrintThenScan(strip: bool, sp: char -> bool, value: int, radix: nat, prefix: string, base: nat)
    requires 2 <= radix <= 36 && IsInt(value) && Matching(radix, prefix, base)
    requires strip ==> forall c :: (IsSign(c) || DigitValue(c) >= 0) ==> !sp(c)
    ensures var text := PrintedText(value, radix, prefix);
            ScanInt(strip, sp, text, base) == Scanned(value, |text|) <==> value != INT_MIN
  {
    var s := PrintedText(value, radix, prefix);
    if value == INT_MIN {
      MinIsLost(strip, sp, radix, prefix, base);
    } else {
      FirstNotSpace(strip, sp, s, value, radix, prefix, base);
      ScanOfPrinted(s, value, radix, prefix, base);
    }
  }

  lemma ScanOfPrinted(s: string, value: int, radix: nat, prefix: string, base: nat)
    requires 2 <= radix <= 36 && IsInt(value) && value != INT_MIN && Matching(radix, prefix, base)
    requires s == PrintedText(value, radix, prefix)
    ensures var (b, q) := BaseAt(s, AfterSigns(s, 0), base);
            var r := ScanDigits(s, q, b, 0);
            (if Negative(s, 0) then Scanned(Wrap(-r.value), r.used) else r) == Scanned(value, |s|)
  {
    var p := |Sign(value)|;
    WithoutSign(s, value, prefix, Body(value, radix));
    BaseOfPrinted(s, p, value, radix, prefix, base);
    ScanSigned(s, value, base);
  }

  lemma WithoutSign(s: string, value: int, prefix: string, body: string)
    requires s == Sign(value) + prefix + body
    ensures s[|Sign(value)|..] == prefix + body && (value < 0 ==> s != "" && s[0] == '-')
  {
  }

  lemma ScanSigned(s: string, value: int, base: nat)
    requires IsInt(value) && value != INT_MIN && |Sign(value)| < |s| && (value < 0 ==> s[0] == '-') && !IsSign(s[|Sign(value)|])
    requires var (b, q) := BaseAt(s, |Sign(value)|, base); ScanDigits(s, q, b, 0) == Scanned(Magnitude(value), |s|)
    ensures var (b, q) := BaseAt(s, AfterSigns(s, 0), base);
            var r := ScanDigits(s, q, b, 0);
            (if Negative(s, 0) then Scanned(Wrap(-r.value), r.used) else r) == Scanned(value, |s|)
  {
    SignsOfPrinted(s, value);
    WrapId(value);
  }

  lemma FirstNotSpace(strip: bool, sp: char -> bool, s: string, value: int, radix: nat, prefix: string, base: nat)
    requires 2 <= radix <= 36 && IsInt(value) && Matching(radix, prefix, base) && s == PrintedText(value, radix, prefix)
    requires strip ==> forall c :: (IsSign(c) || DigitValue(c) >= 0) ==> !sp(c)
    ensures strip ==> FirstWhere(Not(sp), s, 0) == 0
  {
    if value > 0 {
      LeadingDigit(value, radix);
      assert prefix == "" ==> s[0] == Digits(value, radix)[0];
    }
    if strip {
      assert s != "" && (IsSign(s[0]) || DigitValue(s[0]) >= 0);
      FirstWhereIs(Not(sp), s, 0, 0);
    }
  }

  /** The most negative value comes back as zero. */
  lemma MinIsLost(strip: bool, sp: char -> bool, radix: nat, prefix: string, base: nat)
    requires 2 <= radix <= 36 && Matching(radix, prefix, base)
    requires strip ==> forall c :: (IsSign(c) || DigitValue(c) >= 0) ==> !sp(c)
    ensures ScanInt(strip, sp, PrintedText(INT_MIN, radix, prefix), base).value == 0
  {
    var s := "-" + prefix;
    assert PrintedText(INT_MIN, radix, prefix) == s;
    FirstNotSpace(strip, sp, s, INT_MIN, radix, prefix, base);
    assert s[0] == '-';
    assert prefix != "" ==> s[1] == prefix[0] == '0';
    assert |prefix| == 2 ==> s[2] == prefix[1];
    assert AfterSigns(s, 1) == 1;
    WrapId(0);
    var (b, q) := BaseAt(s, 1, base);
    if q < |s| {
      assert s[q] == '0' && q + 1 == |s|;
      assert ScanDigits(s, q + 1, b, 0) == Scanned(0, q + 1);
    }
  }

  // ---------------------------------------------------------------- numerals as they are written

  const LOWER := "0123456789abcdefghijklmnopqrstuvwxyz"
  const UPPER := "0123456789ABCDEFGHIJKLMNOPQRSTUVWXYZ"

  /** A character that stands for the digit `d`. */
  predicate Stands(c: char, d: nat)
    requires d < 36
  {
    c == LOWER[d] || c == UPPER[d]
  }

  /** Digits are printed in lower case. */
  lemma LowerDigits(d: nat)
    requires d < 36
    ensures DigitChar(d) == LOWER[d]
  {
  }

  lemma LowerValues(d: nat)
    requires d < 36
    ensures DigitValue(LOWER[d]) == d
  {
    LowerDigits(d);
    DigitRoundTrip(d);
  }

  lemma UpperValues(d: nat)
    requires d < 36
    ensures DigitValue(UPPER[d]) == d
  {
    UpperChars(d);
  }

  lemma UpperChars(d: nat)
    requires d < 36
    ensures UPPER[d] == if d < 10 then '0' + d as char else 'A' + (d - 10) as char
  {
  }

  /** The scanner reads digits in either case, and nothing else for a digit. */
  lemma StandsExactly(c: char, d: nat)
    requires d < 36
    ensures DigitValue(c) == d <==> Stands(c, d)
  {
    LowerValues(d);
    LowerDigits(d);
    UpperValues(d);
    UpperChars(d);
  }

  /** The number that the first `n` digits stand for. */
  function ValueOf(ds: seq<nat>, n: nat, base: nat): nat
    requires n <= |ds|
  {
    if n == 0 then 0 else ValueOf(ds, n - 1, base) * base + ds[n - 1]
  }

  predicate SpelledDigit(text: string, ds: seq<nat>, base: nat, i: nat)
    requires i < |ds| == |text| && base <= 36
  {
    ds[i] < base && Stands(text[i], ds[i])
  }

  /** `text` is the digits `ds` of the base, in whatever case. */
  ghost predicate Spelled(text: string, ds: seq<nat>, base: nat) {
    |text| == |ds| && base <= 36 && forall i: nat {:trigger SpelledDigit(text, ds, base, i)} :: i < |ds| ==> SpelledDigit(text, ds, base, i)
  }

  /** The text goes on with no digit of the base. */
  ghost predicate NoDigit(rest: string, base: nat) {
    rest != "" ==> StandsForNone(rest[0], base)
  }

  ghost predicate StandsForNone(c: char, base: nat) {
    forall d: nat {:trigger Stands(c, d)} :: d < base && d < 36 ==> !Stands(c, d)
  }

  ghost predicate AllSigns(signs: string) {
    forall i :: 0 <= i < |signs| ==> signs[i] == '+' || signs[i] == '-'
  }

  /** Each minus sign turns the sign around. */
  predicate Odd(signs: string) {
    multiset(signs)['-'] % 2 == 1
  }

  lemma {:induction false} SignsAt(s: string, p: nat, signs: string)
    requires p + |signs| <= |s| && AllSigns(signs) && s[p..p + |signs|] == signs
    requires p + |signs| < |s| ==> !IsSign(s[p + |signs|])
    ensures AfterSigns(s, p) == p + |signs| && Negative(s, p) == Odd(signs)
    decreases |signs|
  {
    if signs != "" {
      var more := signs[1..];
      assert signs == [signs[0]] + more;
      assert s[p] == s[p..p + |signs|][0] && s[p + 1..p + |signs|] == s[p..p + |signs|][1..];
      SignsAt(s, p + 1, more);
    }
  }

  lemma {:induction false} PositionalIs(s: string, p: nat, q: nat, ds: seq<nat>, n: nat, base: nat)
    requires n <= |ds| && q == p + n <= |s|
    requires forall i {:trigger ds[i]} :: 0 <= i < n ==> DigitValue(s[p + i]) == ds[i]
    ensures Positional(s, p, q, base) == ValueOf(ds, n, base)
    decreases n
  {
    if n > 0 {
      PositionalIs(s, p, q - 1, ds, n - 1, base);
      assert DigitValue(s[p + (n - 1)]) == ds[n - 1];
    }
  }

  lemma DigitsAt(s: string, p: nat, q: nat, base: nat)
    requires p <= q <= |s| && (forall i :: p <= i < q ==> IsDigit(s[i], base)) && (q < |s| ==> !IsDigit(s[q], base))
    ensures DigitsEnd(s, p, base) == q
  {
  }

  lemma SpelledValue(text: string, ds: seq<nat>, base: nat, i: nat)
    requires Spelled(text, ds, base) && i < |text|
    ensures DigitValue(text[i]) == ds[i] && IsDigit(text[i], base)
  {
    assert SpelledDigit(text, ds, base, i);
    StandsExactly(text[i], ds[i]);
  }

  /** Spelled digits are read as far as they go. */
  lemma SpelledEnd(s: string, p: nat, q: nat, text: string, ds: seq<nat>, base: nat)
    requires p <= q <= |s| && s[p..q] == text && Spelled(text, ds, base)
    requires q < |s| ==> StandsForNone(s[q], base)
    ensures DigitsEnd(s, p, base) == q
  {
    forall i | p <= i < q ensures IsDigit(s[i], base) {
      assert s[i] == s[p..q][i - p];
      SpelledValue(text, ds, base, i - p);
    }
    if q < |s| { NotADigit(s[q], base); }
    DigitsAt(s, p, q, base);
  }

  /** And they have their values. */
  lemma SpelledNumber(s: string, p: nat, q: nat, text: string, ds: seq<nat>, base: nat)
    requires p <= q <= |s| && s[p..q] == text && Spelled(text, ds, base)
    ensures Positional(s, p, q, base) == ValueOf(ds, |ds|, base)
  {
    forall i {:trigger ds[i]} | 0 <= i < |ds| ensures DigitValue(s[p + i]) == ds[i] {
      assert s[p + i] == s[p..q][i];
      SpelledValue(text, ds, base, i);
    }
    PositionalIs(s, p, q, ds, |ds|, base);
  }

  lemma NotADigit(c: char, base: nat)
    requires base <= 36 && StandsForNone(c, base)
    ensures !IsDigit(c, base)
  {
    var d := DigitValue(c);
    if IsDigit(c, base) { StandsExactly(c, d); }
  }

  /** A prefix, the base asked for and the base it makes the digits be read in. */
  predicate Prefixed(prefix: string, asked: nat, base: nat) {
    match prefix
    case "" => base == if asked == 0 then 10 else asked
    case "0" => asked == 0 && base == 8
    case _ =>
      || ((prefix == "0x" || prefix == "0X") && (asked == 0 || asked == 16) && base == 16)
      || ((prefix == "0b" || prefix == "0B") && (asked == 0 || asked == 2) && base == 2)
  }

  /** What follows the prefix cannot be taken for more of it. */
  predicate PrefixEnds(prefix: string, asked: nat, body: string) {
    && (prefix == "" && asked == 0 ==> body == "" || body[0] != '0')
    && (prefix == "" && asked == 16 ==> |body| < 2 || body[0] != '0' || body[1] !in "xX")
    && (prefix == "" && asked == 2 ==> |body| < 2 || body[0] != '0' || body[1] !in "bB")
    && (prefix == "0" ==> body == "" || body[0] !in "xXbB")
  }

  lemma PrefixAt(s: string, p: nat, prefix: string, asked: nat, base: nat, body: string)
    requires p <= |s| && s[p..] == prefix + body && Prefixed(prefix, asked, base) && PrefixEnds(prefix, asked, body)
    ensures BaseAt(s, p, asked) == (base, p + |prefix|)
  {
    var t := prefix + body;
    assert |s| == p + |t|;
    assert |t| > 0 ==> s[p] == t[0];
    assert |t| > 1 ==> s[p + 1] == t[1];
  }

  /** What the scanner makes of a numeral as it is written: spaces, any number of signs of which each
      minus counts, a prefix and digits in either case. It reads them all, and the value is the number in
      its base with its sign, wrapped around. */
  lemma NumeralIsScanned(strip: bool, sp: char -> bool, lead: string, signs: string, prefix: string, text: string, rest: string,
                         ds: seq<nat>, asked: nat, base: nat, body: string, s: string)
    requires s == lead + (signs + body) && body == prefix + (text + rest)
    requires AllSigns(signs) && (body != "" ==> !IsSign(body[0]))
    requires Prefixed(prefix, asked, base) && PrefixEnds(prefix, asked, text + rest)
    requires Spelled(text, ds, base) && NoDigit(rest, base)
    requires if strip then forall i :: 0 <= i < |lead| ==> sp(lead[i]) else lead == ""
    requires strip && |lead| < |s| ==> !sp(s[|lead|])
    ensures ScanInt(strip, sp, s, asked) ==
            Scanned(Signed(signs, ValueOf(ds, |ds|, base)), |lead| + |signs| + |prefix| + |text|)
  {
    LeadIsSkipped(strip, sp, lead, s);
    var q, k, end := Located(lead, signs, prefix, text, rest, asked, base, body, s);
    NumeralAt(strip, sp, s, asked, base, signs, text, ds, |lead|, q, k, end);
  }

  /** Where the prefix and the digits are. */
  lemma Located(lead: string, signs: string, prefix: string, text: string, rest: string, asked: nat, base: nat, body: string, s: string)
    returns (q: nat, k: nat, end: nat)
    requires s == lead + (signs + body) && body == prefix + (text + rest)
    requires AllSigns(signs) && (body != "" ==> !IsSign(body[0]))
    requires Prefixed(prefix, asked, base) && PrefixEnds(prefix, asked, text + rest) && NoDigit(rest, base)
    ensures |lead| <= |s| && AfterSigns(s, |lead|) == q && Negative(s, |lead|) == Odd(signs) && BaseAt(s, q, asked) == (base, k)
    ensures k <= end <= |s| && s[k..end] == text && (end < |s| ==> StandsForNone(s[end], base))
    ensures end == |lead| + |signs| + |prefix| + |text|
  {
    BodyAt(lead, signs, body, s);
    SignsAt(s, |lead|, signs);
    q, k := |lead| + |signs|, |lead| + |signs| + |prefix|;
    end := k + |text|;
    PrefixIsRead(s, q, prefix, text, rest, asked, base);
  }

  lemma PrefixIsRead(s: string, q: nat, prefix: string, text: string, rest: string, asked: nat, base: nat)
    requires Prefixed(prefix, asked, base) && PrefixEnds(prefix, asked, text + rest) && NoDigit(rest, base)
    requires q <= |s| && s[q..] == prefix + (text + rest)
    ensures var k := q + |prefix|; var end := k + |text|;
            && BaseAt(s, q, asked) == (base, k) && end <= |s| && s[k..end] == text
            && (end < |s| ==> StandsForNone(s[end], base))
  {
    PrefixAt(s, q, prefix, asked, base, text + rest);
    TextAt(s, q, prefix, text, rest);
  }

  /** What was found in the text, put together. */
  lemma NumeralAt(strip: bool, sp: char -> bool, s: string, asked: nat, base: nat, signs: string, text: string, ds: seq<nat>,
                  p: nat, q: nat, k: nat, end: nat)
    requires (if strip then FirstWhere(Not(sp), s, 0) else 0) == p
    requires p <= |s| && AfterSigns(s, p) == q && Negative(s, p) == Odd(signs) && BaseAt(s, q, asked) == (base, k)
    requires k <= end <= |s| && s[k..end] == text && Spelled(text, ds, base)
    requires end < |s| ==> StandsForNone(s[end], base)
    ensures ScanInt(strip, sp, s, asked) == Scanned(Signed(signs, ValueOf(ds, |ds|, base)), end)
  {
    SpelledEnd(s, k, end, text, ds, base);
    SpelledNumber(s, k, end, text, ds, base);
    MeantAt(strip, sp, s, asked, base, p, q, k, end, Positional(s, k, end, base));
  }

  lemma MeantAt(strip: bool, sp: char -> bool, s: string, asked: nat, base: nat, p: nat, q: nat, k: nat, end: nat, n: int)
    requires (if strip then FirstWhere(Not(sp), s, 0) else 0) == p
    requires p <= |s| && AfterSigns(s, p) == q && BaseAt(s, q, asked) == (base, k)
    requires k <= |s| && DigitsEnd(s, k, base) == end && Positional(s, k, end, base) == n
    ensures ScanInt(strip, sp, s, asked) == Scanned(Wrap(if Negative(s, p) then -n else n), end)
  {
    ScansWhatIsMeant(strip, sp, s, asked);
  }

  function Signed(signs: string, n: int): int {
    Wrap(if Odd(signs) then -n else n)
  }

  lemma LeadIsSkipped(strip: bool, sp: char -> bool, lead: string, s: string)
    requires lead <= s && if strip then (forall i :: 0 <= i < |lead| ==> sp(lead[i])) && (|lead| < |s| ==> !sp(s[|lead|])) else lead == ""
    ensures (if strip then FirstWhere(Not(sp), s, 0) else 0) == |lead|
  {
    if strip { FirstWhereIs(Not(sp), s, 0, |lead|); }
  }

  lemma BodyAt(lead: string, signs: string, body: string, s: string)
    requires s == lead + (signs + body)
    ensures var p, q := |lead|, |lead| + |signs|;
            q <= |s| && s[p..p + |signs|] == signs && s[q..] == body && (q < |s| ==> body != "" && s[q] == body[0])
  {
  }

  lemma TextAt(s: string, q: nat, prefix: string, text: string, rest: string)
    requires q <= |s| && s[q..] == prefix + (text + rest)
    ensures var k := q + |prefix|;
            && k + |text| <= |s| && s[k..k + |text|] == text
            && (k + |text| < |s| ==> rest != "" && s[k + |text|] == rest[0])
  {
    var t := prefix + (text + rest);
    var k := q + |prefix|;
    assert |s| == q + |t|;
    forall i | 0 <= i < |text| ensures s[k + i] == text[i] { assert s[k + i] == s[q..][|prefix| + i]; }
    assert k + |text| < |s| ==> s[k + |text|] == s[q..][|prefix| + |text|];
  }
}
