/** The array index text of an integer, printed by reversing its digits arithmetically. */
module IntIndex {
  import opened Numbers

  /** Division and remainder that truncate toward zero. */
  function TruncDiv(x: int, d: nat): int
    requires d > 0
  {
    if x >= 0 then x / d else -(-x / d)
  }

  function TruncMod(x: int, d: nat): int
    requires d > 0
  {
    if x >= 0 then x % d else -(-x % d)
  }

  function Pow10(k: nat): nat {
    if k == 0 then 1 else 10 * Pow10(k - 1)
  }

  /** The decimal digits of a number, least significant first. */
  function Low(x: nat): seq<nat> {
    if x == 0 then [] else [x % 10] + Low(x / 10)
  }

  /** The number whose digits, most significant first, are `s`. */
  function Value(s: seq<nat>): nat {
    if s == [] then 0 else 10 * Value(s[..|s| - 1]) + s[|s| - 1]
  }

  ghost predicate AreDigits(s: seq<nat>) {
    forall i :: 0 <= i < |s| ==> s[i] < 10
  }

  /** Digits given least significant first, written most significant first. */
  function Spell(s: seq<nat>): string
    requires AreDigits(s)
  {
    if s == [] then "" else Spell(s[1..]) + [DigitChar(s[0])]
  }

  lemma {:induction false} LowIsDigits(x: nat)
    ensures AreDigits(Low(x)) && Spell(Low(x)) == Digits(x, 10)
  {
    if x > 0 {
      LowIsDigits(x / 10);
      assert Low(x)[1..] == Low(x / 10);
    }
  }

  lemma {:induction false} LowIsShort(x: nat, k: nat)
    requires x < Pow10(k)
    ensures |Low(x)| <= k
  {
    if x > 0 { LowIsShort(x / 10, k - 1); }
  }

  lemma {:induction false} ValueBelow(s: seq<nat>)
    requires AreDigits(s)
    ensures Value(s) < Pow10(|s|)
  {
    if s != [] { ValueBelow(s[..|s| - 1]); }
  }

  lemma {:induction false} Pow10Grows(j: nat, k: nat)
    requires j <= k
    ensures Pow10(j) <= Pow10(k)
  {
    if j < k { Pow10Grows(j, k - 1); }
  }

  lemma EighteenDigits()
    ensures Pow10(18) == 1_000_000_000_000_000_000
  {
    assert Pow10(2) == 100;
    assert Pow10(4) == 10_000;
    assert Pow10(6) == 1_000_000;
    assert Pow10(8) == 100_000_000;
    assert Pow10(10) == 10_000_000_000;
    assert Pow10(12) == 1_000_000_000_000;
    assert Pow10(14) == 100_000_000_000_000;
    assert Pow10(16) == 10_000_000_000_000_000;
  }

  /** A prefix that reads as zero is all zeros, so what is left to write is its length in zeros. */
  lemma {:induction false} ZeroValue(s: seq<nat>)
    requires AreDigits(s) && Value(s) == 0
    ensures forall i :: 0 <= i < |s| ==> s[i] == 0
  {
    if s != [] { ZeroValue(s[..|s| - 1]); }
  }

  /** The digits of 18 places, as read off a 64-bit integer without its last one. */
  lemma NoOverflow(s: seq<nat>, dig: nat)
    requires AreDigits(s) && |s| <= 18 && dig <= |s|
    ensures IsInt(Value(s[..dig])) && (dig > 0 ==> Value(s[..dig]) == 10 * Value(s[..dig - 1]) + s[dig - 1])
  {
    ValueBelow(s[..dig]);
    Pow10Grows(dig, 18);
    EighteenDigits();
    if dig > 0 { assert s[..dig][..dig - 1] == s[..dig - 1]; }
  }

  /** Reads the digits of `x0` into a number that has them in reverse. No step overflows. */
  method Reverse(x0: int) returns (y: int, dig: nat)
    requires 0 <= x0 <= 922_337_203_685_477_580
    ensures dig == |Low(x0)| <= 18 && y == Value(Low(x0)) && IsInt(y)
  {
    ghost var all := Low(x0);
    LowIsDigits(x0);
    EighteenDigits();
    LowIsShort(x0, 18);
    var x := x0;
    y, dig := 0, 0;
    assert all[..0] == [] && all[0..] == all;
    while x > 0
      invariant x >= 0 && dig <= |all| && y == Value(all[..dig]) && all[dig..] == Low(x)
      decreases x
    {
      NoOverflow(all, dig + 1);
      assert all[dig] == all[dig..][0];
      assert all[dig..][1..] == all[dig + 1..];
      y := y * 10 + x % 10;
      assert IsInt(y);
      x := x / 10;
      dig := dig + 1;
    }
    NoOverflow(all, dig);
    assert all[..dig] == all;
  }

  /** Writes the digits back off the reversed number, as far as it goes. */
  method WriteReversed(ghost all: seq<nat>, y0: int, dig0: nat, buf: array<char>, start: nat) returns (len: nat, dig: nat)
    requires AreDigits(all) && dig0 == |all| <= 18 && y0 == Value(all) && start + |all| <= buf.Length
    modifies buf
    ensures dig <= |all| && len == start + |all| - dig && buf[start..len] == Spell(all[dig..])
    ensures forall i :: 0 <= i < dig ==> all[i] == 0
    ensures forall i :: 0 <= i < start ==> buf[i] == old(buf[i])
  {
    var y := y0;
    dig, len := dig0, start;
    assert all[..dig] == all && all[dig..] == [];
    while y > 0
      invariant 0 <= dig <= |all| && y == Value(all[..dig]) && len == start + |all| - dig
      invariant buf[start..len] == Spell(all[dig..])
      invariant forall i :: 0 <= i < start ==> buf[i] == old(buf[i])
    {
      NoOverflow(all, dig);
      SpellNext(all, dig);
      buf[len] := DigitChar(y % 10);
      assert buf[start..len + 1] == buf[start..len] + [buf[len]];
      len := len + 1;
      y := y / 10;
      dig := dig - 1;
    }
    ZeroValue(all[..dig]);
    assert forall i :: 0 <= i < dig ==> all[i] == all[..dig][i];
  }

  /** Writes the zeros the reversal lost. */
  method WriteZeros(ghost all: seq<nat>, dig0: nat, buf: array<char>, start: nat, len0: nat) returns (len: nat)
    requires AreDigits(all) && dig0 <= |all| && len0 == start + |all| - dig0 && start + |all| <= buf.Length
    requires (forall i :: 0 <= i < dig0 ==> all[i] == 0) && buf[start..len0] == Spell(all[dig0..])
    modifies buf
    ensures len == start + |all| && buf[start..len] == Spell(all)
    ensures forall i :: 0 <= i < start ==> buf[i] == old(buf[i])
  {
    var dig := dig0;
    len := len0;
    while dig > 0
      invariant 0 <= dig <= dig0 && len == start + |all| - dig
      invariant buf[start..len] == Spell(all[dig..])
      invariant forall i :: 0 <= i < start ==> buf[i] == old(buf[i])
    {
      SpellNext(all, dig);
      dig := dig - 1;
      buf[len] := '0';
      assert buf[start..len + 1] == buf[start..len] + ['0'];
      len := len + 1;
    }
    assert all[0..] == all;
  }

  lemma SpellNext(all: seq<nat>, dig: nat)
    requires AreDigits(all) && 0 < dig <= |all|
    ensures Spell(all[dig - 1..]) == Spell(all[dig..]) + [DigitChar(all[dig - 1])]
  {
    assert all[dig - 1..][1..] == all[dig..];
  }

  /** Writes a number by way of its reversal. */
  method WriteTens(x: int, buf: array<char>, start: nat) returns (len: nat)
    requires 0 <= x <= 922_337_203_685_477_580 && start + 18 <= buf.Length
    modifies buf
    ensures start <= len <= start + 18 && buf[start..len] == Digits(x, 10)
    ensures forall i :: 0 <= i < start ==> buf[i] == old(buf[i])
  {
    LowIsDigits(x);
    var y, dig := Reverse(x);
    var rest;
    len, rest := WriteReversed(Low(x), y, dig, buf, start);
    len := WriteZeros(Low(x), rest, buf, start, len);
  }

  /** The printer: for every 64-bit integer, the most negative one included, the text of the number,
      in a buffer of 21 characters. */
  method MakeIndex(x0: int, buf: array<char>) returns (len: nat)
    requires IsInt(x0) && buf.Length == 21
    modifies buf
    ensures len <= 20 && buf[..len] == NumberText(x0, 10, "") && buf[len] == '\0'
  {
    var last := TruncMod(x0, 10);
    len := 0;
    if x0 < 0 {
      buf[len] := '-';
      len := len + 1;
    }
    var x := TruncDiv(x0, 10);
    if x < 0 { x := Neg(x); }
    var sign := len;
    len := WriteTens(x, buf, len);
    if last < 0 { last := -last; }
    buf[len] := DigitChar(last);
    assert buf[sign..len + 1] == buf[sign..len] + [buf[len]];
    len := len + 1;
    buf[len] := '\0';
    MakeIndexText(x0, x, last);
    assert buf[..len] == buf[..sign] + buf[sign..len];
  }

  lemma MakeIndexText(x0: int, x: nat, last: nat)
    requires last < 10 && x0 == if x0 < 0 then -(10 * x + last) else 10 * x + last
    ensures NumberText(x0, 10, "") == (if x0 < 0 then "-" else "") + (Digits(x, 10) + [DigitChar(last)])
  {
    var m := 10 * x + last;
    assert m / 10 == x && m % 10 == last;
    assert "-" + "" == "-";
    assert "" + Digits(m, 10) == Digits(m, 10);
  }

  /** Both printers agree on every integer but the most negative: an index stored under the one text is
      found under the other. */
  lemma PrintersAgree(x: int)
    requires IsInt(x)
    ensures PrintedText(x, 10, "") == NumberText(x, 10, "") <==> x != INT_MIN
  {
    PrintedIsText(x, 10, "");
  }

  /** The index of a number as the one printer makes it, and as the other does. */
  method BothIndices(x: int) returns (stored: string, sought: string)
    requires IsInt(x)
    ensures stored == NumberText(x, 10, "") && sought == PrintedText(x, 10, "")
    ensures stored == sought <==> x != INT_MIN
  {
    PrintersAgree(x);
    var buf := new char[21];
    var len := MakeIndex(x, buf);
    stored := buf[..len];
    var n := IntToStr(x, 10, "", null, 0);
    var room := new char[n];
    n := IntToStr(x, 10, "", room, n);
    sought := room[..n];
  }
}
