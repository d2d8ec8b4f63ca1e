/** Integers by the grammar of section 2.4 of RFC 4627, and that the reader scans exactly those as integers. */
module NumberGrammar {
  import opened Characters
  import opened Sax
  import opened Scanner
  import opened Numbers
  import S = Strings
  import D = Decimal
  import P = PrettyRoundTrip

  /** Zero, or digits of which the first is not zero. */
  predicate IsNatural(ds: string) {
    ds == "0" || (ds != "" && ds[0] != '0' && forall c | c in ds :: c in DECIMAL)
  }

  /** The number they denote, each digit by its place among the ten. */
  function Denoted(ds: string): nat {
    if ds == "" then 0 else 10 * Denoted(ds[..|ds| - 1]) + Position(ds[|ds| - 1], DECIMAL)
  }

  function Sign(minus: bool): string { if minus then "-" else "" }

  /** From `p` to `q` stands an integer that no digit, fraction or exponent continues. */
  predicate IntegerAt(text: string, p: nat, minus: bool, ds: string, q: nat) {
    && IsNatural(ds) && P.At(text, p, Sign(minus) + ds) && q == p + |Sign(minus) + ds|
    && (ds == "0" || q == |text| || text[q] !in DECIMAL)
    && (q == |text| || text[q] !in ".eE")
  }

  /** The event for it: unsigned unless there is a minus sign, 32 bits if they suffice, 64 if they do. */
  predicate Delivers(e: Event, minus: bool, n: nat) {
    match e
    case Uint(u) => !minus && u == n < 0x1_0000_0000
    case Uint64(u) => !minus && 0x1_0000_0000 <= u == n < 0x1_0000_0000_0000_0000
    case Int(i) => minus && i + n == 0 && n <= 0x8000_0000
    case Int64(i) => minus && i + n == 0 && 0x8000_0000 < n <= 0x8000_0000_0000_0000
    case _ => false
  }

  ghost predicate IsInteger(text: string, p: nat, e: Event, q: nat) {
    exists minus, ds :: IntegerAt(text, p, minus, ds, q) && Delivers(e, minus, Denoted(ds))
  }

  // ---- The reader's integers

  lemma DigitIs(c: char)
    ensures IsDigit(c) <==> c in DECIMAL
    ensures IsDigit(c) ==> Digit(c) == Position(c, DECIMAL)
  {
    DecimalIs(c);
  }

  lemma {:induction false} DenotedIs(ds: string)
    requires AllDigits(ds)
    ensures Denoted(ds) == ValueOf(ds)
    decreases |ds|
  {
    if ds != "" {
      var c := ds[|ds| - 1];
      assert c in ds;
      DigitIs(c);
      DenotedIs(ds[..|ds| - 1]);
    }
  }

  lemma EventIs(e: Event, minus: bool, n: nat)
    ensures Delivers(e, minus, n) <==> e == LiteralEvent(minus, n) && !e.Double?
  {
  }

  /** The digits that the reader takes, once it is behind the sign. */
  lemma DigitsTaken(text: string, d: nat, q: nat, ds: string)
    requires d <= |text| && IsNatural(ds) && P.At(text, d, ds) && q == d + |ds|
    requires ds == "0" || q == |text| || text[q] !in DECIMAL
    ensures AllDigits(ds) && IsDigit(Peek(text, d)) && IntegerEnd(text, d) == q
  {
    hide Position;
    forall c | c in ds ensures IsDigit(c) { DigitIs(c); }
    DigitIs(Peek(text, q));
    assert text[d] == ds[0] && ds[0] in ds;
    if ds != "0" { D.DigitsStop(text, d, q); }
  }

  lemma NaturalTaken(text: string, d: nat)
    requires d <= |text| && IsDigit(Peek(text, d))
    ensures var q := IntegerEnd(text, d);
      var ds := text[d..q];
      IsNatural(ds) && (ds == "0" || q == |text| || text[q] !in DECIMAL)
  {
    hide Position;
    var q := IntegerEnd(text, d);
    var ds := text[d..q];
    forall c | c in ds ensures c in DECIMAL { DigitIs(c); }
    assert ds[0] == text[d];
    if text[d] == '0' { assert ds == "0"; }
    if q < |text| { DigitIs(text[q]); }
  }

  /** The integer path of the reader delivers exactly the integers of the grammar that 64 bits hold. */
  lemma ScansExactlyIntegers(text: string, p: nat, e: Event, q: nat)
    requires p <= |text|
    ensures IntegerLiteral(text, p) == Integer(e, q) <==> IsInteger(text, p, e, q)
  {
    hide ValueOf, IntegerEnd, Delivers, LiteralEvent, Position, Denoted, IntegerAt;
    if IntegerLiteral(text, p) == Integer(e, q) {
      var minus := IsMinus(text, p);
      var d := if minus then p + 1 else p;
      SignTaken(text, p, q);
      DenotedIs(text[d..q]);
      EventIs(e, minus, ValueOf(text[d..q]));
    }
    forall minus, ds | IntegerAt(text, p, minus, ds, q) && Delivers(e, minus, Denoted(ds))
      ensures IntegerLiteral(text, p) == Integer(e, q)
    {
      IntegerTaken(text, p, minus, ds, q);
      DenotedIs(ds);
      EventIs(e, minus, Denoted(ds));
    }
  }

  lemma SignTaken(text: string, p: nat, q: nat)
    requires p <= |text|
    requires var d := if IsMinus(text, p) then p + 1 else p;
      IsDigit(Peek(text, d)) && q == IntegerEnd(text, d) && Peek(text, q) !in ".eE"
    ensures var minus := IsMinus(text, p);
      var d := if minus then p + 1 else p;
      IntegerAt(text, p, minus, text[d..q], q) && AllDigits(text[d..q])
  {
    hide IntegerEnd;
    var minus := IsMinus(text, p);
    var d := if minus then p + 1 else p;
    NaturalTaken(text, d);
    assert text[p..q] == Sign(minus) + text[d..q];
  }

  lemma IntegerTaken(text: string, p: nat, minus: bool, ds: string, q: nat)
    requires p <= |text| && IntegerAt(text, p, minus, ds, q)
    ensures IsMinus(text, p) == minus && AllDigits(ds)
    ensures var d := if minus then p + 1 else p;
      IsDigit(Peek(text, d)) && IntegerEnd(text, d) == q && text[d..q] == ds && Peek(text, q) !in ".eE"
  {
    hide IntegerEnd, IsNatural;
    var d := if minus then p + 1 else p;
    S.AtSplit(text, p, Sign(minus), ds);
    DigitsTaken(text, d, q, ds);
    if minus {
      assert text[p..p + 1] == "-" && text[p] == text[p..p + 1][0];
    }
  }

  /** A number that is an integer of the grammar is scanned as that; any other is left to the double path. */
  lemma IntegersFirst(text: string, p: nat, nanAndInf: bool, lexReal: (string, nat) -> LexedNumber, e: Event, q: nat)
    requires p <= |text|
    ensures IsInteger(text, p, e, q) ==> D.LexNumber(nanAndInf, lexReal, text, p) == NumberAt(e, q)
    ensures D.LexNumber(nanAndInf, lexReal, text, p) == NumberAt(e, q) ==> IsInteger(text, p, e, q) || lexReal(text, p) == NumberAt(e, q)
  {
    hide IntegerLiteral, IsInteger;
    ScansExactlyIntegers(text, p, e, q);
  }

  /** A natural number stands there, behind the sign if there is one, and the double path has to go on with it: a
    * fraction or an exponent follows, or 64 bits do not hold it. */
  predicate LeavesIntegers(text: string, p: nat, minus: bool, ds: string, q: nat) {
    && IsNatural(ds) && P.At(text, p, Sign(minus) + ds) && q == p + |Sign(minus) + ds|
    && (ds == "0" || q == |text| || text[q] !in DECIMAL)
    && ((q < |text| && text[q] in ".eE") || Denoted(ds) > if minus then 0x8000_0000_0000_0000 else 0xFFFF_FFFF_FFFF_FFFF)
  }

  lemma RealsToTheDoublePath(text: string, p: nat, minus: bool, ds: string, q: nat, nanAndInf: bool, lexReal: (string, nat) -> LexedNumber)
    requires p <= |text| && LeavesIntegers(text, p, minus, ds, q)
    ensures D.LexNumber(nanAndInf, lexReal, text, p) == lexReal(text, p)
  {
    hide ValueOf, IntegerEnd, LiteralEvent, Position, Denoted, IsNatural;
    var d := if minus then p + 1 else p;
    S.AtSplit(text, p, Sign(minus), ds);
    DigitsTaken(text, d, q, ds);
    if minus { assert text[p] == text[p..p + 1][0]; }
    DenotedIs(ds);
    TooWide(minus, Denoted(ds));
    assert q < |text| && text[q] in ".eE" ==> text[q] == '.' || text[q] == 'e' || text[q] == 'E';
  }

  lemma TooWide(minus: bool, n: nat)
    ensures LiteralEvent(minus, n).Double? <==> n > if minus then 0x8000_0000_0000_0000 else 0xFFFF_FFFF_FFFF_FFFF
  {
  }

  /** Where no digit stands behind the sign there is no number, but by flag a NaN or an infinity may be. */
  lemma NoNumber(text: string, p: nat, nanAndInf: bool, lexReal: (string, nat) -> LexedNumber)
    requires p <= |text|
    ensures var d := if p < |text| && text[p] == '-' then p + 1 else p;
      (d == |text| || text[d] !in DECIMAL) ==>
        D.LexNumber(nanAndInf, lexReal, text, p) ==
          if nanAndInf && d < |text| && text[d] in "IN" then lexReal(text, p) else NumberError(ValueInvalid, d)
  {
    var d := if p < |text| && text[p] == '-' then p + 1 else p;
    DigitIs(Peek(text, d));
  }
}
