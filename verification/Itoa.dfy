/** The fast integer printers (`internal/itoa.h`): two digits at a time from a table, with
  * the number cut into groups of four. They print the shortest decimal digits, within the
  * buffers their callers provide. */
module Itoa {
  import opened Numbers
  import opened Decimal

  /** The table of the two-digit strings from 00 to 99, one after the other. */
  function DigitsLut(i: nat): char
    requires i < 200
  {
    if i % 2 == 0 then DigitChar(i / 2 / 10) else DigitChar(i / 2 % 10)
  }

  /** Four digits, with leading zeros. */
  function Four(n: nat): (ds: string)
    requires n < 10000
    ensures |ds| == 4
  {
    [DigitChar(n / 1000), DigitChar(n / 100 % 10), DigitChar(n / 10 % 10), DigitChar(n % 10)]
  }

  // ---- Decimal digits in groups

  lemma FourMore(n: nat, m: nat)
    requires n > 0 && m < 10000
    ensures Digits(n * 10000 + m) == Digits(n) + Four(m)
  {
    var v := n * 10000 + m;
    assert v / 10 == n * 1000 + m / 10 && v % 10 == m % 10;
    assert v / 10 / 10 == n * 100 + m / 100 && v / 10 % 10 == m / 10 % 10;
    assert v / 10 / 10 / 10 == n * 10 + m / 1000 && v / 10 / 10 % 10 == m / 100 % 10;
    assert v / 10 / 10 / 10 / 10 == n && v / 10 / 10 / 10 % 10 == m / 1000;
    Unfold4(v);
  }

  lemma Unfold4(v: nat)
    requires v >= 10000
    ensures var a := v / 10; var b := a / 10; var c := b / 10; var d := c / 10;
            Digits(v) == Digits(d) + [DigitChar(c % 10), DigitChar(b % 10), DigitChar(a % 10), DigitChar(v % 10)]
  {
    var a := v / 10;
    var b := a / 10;
    var c := b / 10;
    var d := c / 10;
    assert Digits(v) == Digits(a) + [DigitChar(v % 10)];
    assert Digits(a) == Digits(b) + [DigitChar(a % 10)];
    assert Digits(b) == Digits(c) + [DigitChar(b % 10)];
    assert Digits(c) == Digits(d) + [DigitChar(c % 10)];
  }

  lemma ShortDigits(n: nat)
    requires n < 10000
    ensures Digits(n) ==
      (if n >= 1000 then [DigitChar(n / 1000)] else "") + (if n >= 100 then [DigitChar(n / 100 % 10)] else "") +
      (if n >= 10 then [DigitChar(n / 10 % 10)] else "") + [DigitChar(n % 10)]
  {
    assert n / 10 / 10 == n / 100 && n / 100 / 10 == n / 1000;
  }

  lemma Table(n: nat)
    requires n < 10000
    ensures var d1, d2 := n / 100 * 2, n % 100 * 2;
            && DigitsLut(d1) == DigitChar(n / 1000) && DigitsLut(d1 + 1) == DigitChar(n / 100 % 10)
            && DigitsLut(d2) == DigitChar(n / 10 % 10) && DigitsLut(d2 + 1) == DigitChar(n % 10)
  {
    Pair(n / 100);
    Pair(n % 100);
    HundredsAndRest(n / 100, n % 100);
    hide DigitsLut;
  }

  lemma Pair(d: nat)
    requires d < 100
    ensures DigitsLut(d * 2) == DigitChar(d / 10) && DigitsLut(d * 2 + 1) == DigitChar(d % 10)
  {
    assert d * 2 / 2 == d && (d * 2 + 1) / 2 == d;
  }

  lemma HundredsAndRest(q: nat, r: nat)
    requires r < 100
    ensures var n := q * 100 + r;
            n / 1000 == q / 10 && n / 100 % 10 == q % 10 && n / 10 % 10 == r / 10 && n % 10 == r % 10
  {
    var n := q * 100 + r;
    assert n / 10 == q * 10 + r / 10 && n / 100 == q && n / 1000 == n / 100 / 10;
  }

  // ---- The printers

  /** Four digits of a group, none left out. */
  method PutFour(buffer: string, n: nat) returns (r: string)
    requires n < 10000
    ensures r == buffer + Four(n)
  {
    hide DigitsLut, DigitChar;
    Table(n);
    var d1, d2 := n / 100 * 2, n % 100 * 2;
    r := buffer + [DigitsLut(d1)];
    r := r + [DigitsLut(d1 + 1)];
    r := r + [DigitsLut(d2)];
    r := r + [DigitsLut(d2 + 1)];
  }

  /** The digits of a leading group of at most four: each but the last only if the number
    * reaches it. */
  method PutLeading(buffer: string, n: nat) returns (r: string)
    requires n < 10000
    ensures r == buffer + Digits(n)
  {
    hide DigitsLut, DigitChar, Digits;
    Table(n);
    ShortDigits(n);
    var d1, d2 := n / 100 * 2, n % 100 * 2;
    r := buffer;
    if n >= 1000 { r := r + [DigitsLut(d1)]; }
    if n >= 100 { r := r + [DigitsLut(d1 + 1)]; }
    if n >= 10 { r := r + [DigitsLut(d2)]; }
    r := r + [DigitsLut(d2 + 1)];
  }

  method PutEight(buffer: string, n: nat) returns (r: string)
    requires n < 100000000
    ensures r == buffer + Four(n / 10000) + Four(n % 10000)
  {
    r := PutFour(buffer, n / 10000);
    r := PutFour(r, n % 10000);
  }

  lemma EightMore(n: nat, m: nat)
    requires n > 0 && m < 100000000
    ensures Digits(n * 100000000 + m) == Digits(n) + Four(m / 10000) + Four(m % 10000)
  {
    FourMore(n, m / 10000);
    FourMore(n * 10000 + m / 10000, m % 10000);
  }

  /** The digits of a number below 10^8. */
  method PutLeadingEight(buffer: string, v: nat) returns (r: string)
    requires v < 100000000
    ensures r == buffer + Digits(v)
  {
    hide Four, Digits;
    if v < 10000 {
      r := PutLeading(buffer, v);
    } else {
      FourMore(v / 10000, v % 10000);
      r := PutLeading(buffer, v / 10000);
      r := PutFour(r, v % 10000);
      assert buffer + (Digits(v / 10000) + Four(v % 10000)) == buffer + Digits(v / 10000) + Four(v % 10000);
    }
  }

  method U32toa(value: uint32, buffer: string) returns (r: string)
    ensures r == buffer + Digits(value as nat) && |Digits(value as nat)| <= 10
  {
    hide Four, Digits;
    var v := value as nat;
    LengthOfDigits(v, 10);
    if v < 100000000 {
      r := PutLeadingEight(buffer, v);
    } else {
      var a, rest := v / 100000000, v % 100000000;
      EightMore(a, rest);
      r := PutLeading(buffer, a);
      r := PutEight(r, rest);
      assert buffer + (Digits(a) + Four(rest / 10000) + Four(rest % 10000)) == buffer + Digits(a) + Four(rest / 10000) + Four(rest % 10000);
    }
  }

  method U64toa(value: uint64, buffer: string) returns (r: string)
    ensures r == buffer + Digits(value as nat) && |Digits(value as nat)| <= 20
  {
    hide Four, Digits;
    var v := value as nat;
    LengthOfDigits(v, 20);
    if v < 100000000 {
      r := PutLeadingEight(buffer, v);
    } else if v < 10000000000000000 {
      var v0, v1 := v / 100000000, v % 100000000;
      EightMore(v0, v1);
      r := PutLeadingEight(buffer, v0);
      r := PutEight(r, v1);
      assert buffer + (Digits(v0) + Four(v1 / 10000) + Four(v1 % 10000)) == buffer + Digits(v0) + Four(v1 / 10000) + Four(v1 % 10000);
    } else {
      var a, rest := v / 10000000000000000, v % 10000000000000000;
      var v0, v1 := rest / 100000000, rest % 100000000;
      SixteenMore(a, v0, v1);
      r := PutLeading(buffer, a);
      r := PutEight(r, v0);
      r := PutEight(r, v1);
      assert r == buffer + (Digits(a) + Four(v0 / 10000) + Four(v0 % 10000) + Four(v1 / 10000) + Four(v1 % 10000));
    }
  }

  lemma SixteenMore(a: nat, v0: nat, v1: nat)
    requires a > 0 && v0 < 100000000 && v1 < 100000000
    ensures Digits(a * 10000000000000000 + v0 * 100000000 + v1) ==
      Digits(a) + Four(v0 / 10000) + Four(v0 % 10000) + Four(v1 / 10000) + Four(v1 % 10000)
  {
    hide Four, Digits;
    EightMore(a, v0);
    EightMore(a * 100000000 + v0, v1);
  }

  /** The sign, then the magnitude, negated in the width of the type. */
  method I32toa(value: int, buffer: string) returns (r: string)
    requires -0x8000_0000 <= value < 0x8000_0000
    ensures r == buffer + WriteInteger(value) && |WriteInteger(value)| <= 11
  {
    hide Digits;
    var u: uint32 := (value % 0x1_0000_0000) as uint32;
    r := buffer;
    if value < 0 {
      r := r + "-";
      u := ((0xFFFF_FFFF - u as int + 1) % 0x1_0000_0000) as uint32;
    }
    r := U32toa(u, r);
    assert u as int == if value < 0 then -value else value;
    assert value < 0 ==> buffer + "-" + Digits(-value) == buffer + ("-" + Digits(-value));
  }

  method I64toa(value: int, buffer: string) returns (r: string)
    requires -0x8000_0000_0000_0000 <= value < 0x8000_0000_0000_0000
    ensures r == buffer + WriteInteger(value) && |WriteInteger(value)| <= 21
  {
    hide Digits;
    var u: uint64 := (value % 0x1_0000_0000_0000_0000) as uint64;
    r := buffer;
    if value < 0 {
      r := r + "-";
      u := ((0xFFFF_FFFF_FFFF_FFFF - u as int + 1) % 0x1_0000_0000_0000_0000) as uint64;
    }
    r := U64toa(u, r);
    assert u as int == if value < 0 then -value else value;
    assert value < 0 ==> buffer + "-" + Digits(-value) == buffer + ("-" + Digits(-value));
  }

  function Power(k: nat): nat { if k == 0 then 1 else 10 * Power(k - 1) }

  /** A number below 10^k has at most k digits. */
  lemma {:induction false} DigitsWithin(n: nat, k: nat)
    requires k > 0 && n < Power(k)
    ensures |Digits(n)| <= k
    decreases k
  {
    if n >= 10 {
      DigitsWithin(n / 10, k - 1);
    }
  }

  lemma LengthOfDigits(n: nat, k: nat)
    requires (k == 10 && n < 0x1_0000_0000) || (k == 20 && n < 0x1_0000_0000_0000_0000)
    ensures |Digits(n)| <= k
  {
    hide Digits;
    assert Power(5) == 100000;
    assert Power(10) == 10000000000;
    assert Power(15) == 1000000000000000;
    assert Power(20) == 100000000000000000000;
    DigitsWithin(n, k);
  }
}
