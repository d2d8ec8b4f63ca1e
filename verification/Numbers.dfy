/** The integer path of ParseNumber, its accumulators at their machine widths, and the flags of integer values. */
module Numbers {
  import opened Options
  import opened Sax
  import Scanner

  newtype uint32 = x: int | 0 <= x < 0x1_0000_0000
  newtype uint64 = x: int | 0 <= x < 0x1_0000_0000_0000_0000
  newtype int32 = x: int | -0x8000_0000 <= x < 0x8000_0000

  predicate IsDigit(c: char) {
    '0' <= c <= '9'
  }

  function Digit(c: char): (d: nat)
    requires IsDigit(c)
    ensures d <= 9
  {
    c as int - '0' as int
  }

  predicate AllDigits(ds: string) {
    forall c | c in ds :: IsDigit(c)
  }

  /** The number a digit string denotes, in base ten. */
  function ValueOf(ds: string): (n: nat)
    requires AllDigits(ds)
  {
    if ds == "" then 0 else ValueOf(ds[..|ds| - 1]) * 10 + Digit(ds[|ds| - 1])
  }

  /** The end of the run of digits that starts at `p`. */
  function DigitsEnd(text: string, p: nat): (q: nat)
    requires p <= |text|
    ensures p <= q <= |text| && AllDigits(text[p..q]) && !IsDigit(Scanner.Peek(text, q))
    decreases |text| - p
  {
    if IsDigit(Scanner.Peek(text, p)) then
      var q := DigitsEnd(text, p + 1);
      assert text[p..q] == [text[p]] + text[p + 1..q];
      q
    else p
  }

  lemma ValueSnoc(text: string, p: nat, q: nat)
    requires p <= q < |text| && AllDigits(text[p..q]) && IsDigit(text[q])
    ensures AllDigits(text[p..q + 1]) && ValueOf(text[p..q + 1]) == ValueOf(text[p..q]) * 10 + Digit(text[q])
  {
    assert text[p..q + 1] == text[p..q] + [text[q]];
    assert text[p..q + 1][..q - p] == text[p..q];
  }

  lemma OneDigit(text: string, p: nat)
    requires p < |text| && IsDigit(text[p])
    ensures AllDigits(text[p..p + 1]) && ValueOf(text[p..p + 1]) == Digit(text[p])
  {
    assert text[p..p + 1] == [text[p]] && [text[p]][..0] == "";
  }

  lemma DigitsStep(text: string, p: nat)
    requires p <= |text|
    ensures if IsDigit(Scanner.Peek(text, p)) then p < DigitsEnd(text, p) == DigitsEnd(text, p + 1) else DigitsEnd(text, p) == p
  {
  }

  /** A longer digit string denotes no smaller number. */
  lemma {:induction false} ValueMonotone(text: string, p: nat, q: nat, r: nat)
    requires p <= q <= r <= |text| && AllDigits(text[p..r])
    ensures AllDigits(text[p..q]) && ValueOf(text[p..q]) <= ValueOf(text[p..r])
    decreases r
  {
    assert forall i | p <= i < r :: text[i] == text[p..r][i - p];
    if q < r {
      assert text[p..r - 1] == text[p..r][..r - 1 - p];
      assert text[r - 1] in text[p..r];
      ValueSnoc(text, p, r - 1);
      ValueMonotone(text, p, q, r - 1);
    }
  }

  /** The class of an integer literal: by sign, the narrowest that holds it; none when only a double can. */
  function LiteralEvent(minus: bool, v: nat): (e: Event)
  {
    if minus then
      var n: int := v;
      if v <= 0x8000_0000 then Int(-n)
      else if v <= 0x8000_0000_0000_0000 then Int64(-n)
      else Double(-(v as real))
    else if v < 0x1_0000_0000 then Uint(v)
    else if v < 0x1_0000_0000_0000_0000 then Uint64(v)
    else Double(v as real)
  }

  /** The first digit a further digit would make too many, for a 32- or 64-bit accumulator of either sign. */
  function Limit(minus: bool, wide: bool): (l: nat) {
    if wide then (if minus then 0x8000_0000_0000_0000 else 0xFFFF_FFFF_FFFF_FFFF)
    else (if minus then 0x8000_0000 else 0xFFFF_FFFF)
  }

  datatype Scan =
    | NoDigits
    | Narrow(i: uint32, next: nat)
    | Wide(i64: uint64, next: nat)
    | TooBig(i64: uint64, next: nat) // the prefix kept when the 64-bit accumulator gives up

  /** The integer part: both accumulation loops, from just after the sign. */
  method ScanInteger(text: string, p: nat, minus: bool) returns (r: Scan)
    requires p <= |text|
    ensures r.NoDigits? <==> !IsDigit(Scanner.Peek(text, p))
    ensures !r.NoDigits? ==>
              var q := if text[p] == '0' then p + 1 else DigitsEnd(text, p);
              var v := ValueOf(text[p..q]);
              && (r.Narrow? <==> v <= Limit(minus, false))
              && (r.Wide? <==> Limit(minus, false) < v <= Limit(minus, true))
              && (r.Narrow? ==> r.next == q && r.i as int == v)
              && (r.Wide? ==> r.next == q && r.i64 as int == v)
              && (r.TooBig? ==> p < r.next < q && AllDigits(text[p..r.next])
                                && ValueOf(text[p..r.next]) == r.i64 as int <= Limit(minus, true))
  {
    hide ValueOf, DigitsEnd;
    var c := Scanner.Peek(text, p);
    if !IsDigit(c) { return NoDigits; }
    OneDigit(text, p);
    if c == '0' { return Narrow(0, p + 1); }
    ghost var q := DigitsEnd(text, p);
    DigitsStep(text, p);
    var i: uint32 := Digit(c) as uint32;
    var at := p + 1;
    var use64bit := false;
    while !use64bit && IsDigit(Scanner.Peek(text, at))
      invariant p < at <= q && DigitsEnd(text, at) == q && AllDigits(text[p..at])
      invariant ValueOf(text[p..at]) == i as int <= Limit(minus, false)
      invariant use64bit ==> at < q && i as int * 10 + Digit(text[at]) > Limit(minus, false)
      decreases !use64bit, q - at
    {
      var d := text[at];
      ValueSnoc(text, p, at);
      DigitsStep(text, at);
      if minus && i >= 214748364 && (i != 214748364 || d > '8') {
        use64bit := true;
      } else if !minus && i >= 429496729 && (i != 429496729 || d > '5') {
        use64bit := true;
      } else {
        i := i * 10 + Digit(d) as uint32;
        at := at + 1;
      }
    }
    if !use64bit { return Narrow(i, at); }
    r := ScanWide(text, p, at, minus, i as int as uint64);
  }

  /** The 64-bit loop, entered when the next digit does not fit the 32-bit accumulator. */
  method ScanWide(text: string, p: nat, start: nat, minus: bool, prefix: uint64) returns (r: Scan)
    requires p < start < |text| && text[p] != '0' && AllDigits(text[p..start]) && IsDigit(text[start])
    requires DigitsEnd(text, p) == DigitsEnd(text, start)
    requires ValueOf(text[p..start]) == prefix as int <= Limit(minus, false) < prefix as int * 10 + Digit(text[start])
    ensures var q := DigitsEnd(text, p);
            var v := ValueOf(text[p..q]);
            && !r.NoDigits? && !r.Narrow? && v > Limit(minus, false)
            && (r.Wide? <==> v <= Limit(minus, true))
            && (r.Wide? ==> r.next == q && r.i64 as int == v)
            && (r.TooBig? ==> p < r.next < q && AllDigits(text[p..r.next])
                              && ValueOf(text[p..r.next]) == r.i64 as int <= Limit(minus, true))
  {
    hide ValueOf, DigitsEnd;
    ghost var q := DigitsEnd(text, p);
    DigitsStep(text, start);
    ValueSnoc(text, p, start);
    ValueMonotone(text, p, start + 1, q);
    var i64, at := prefix, start;
    while IsDigit(Scanner.Peek(text, at))
      invariant start <= at <= q && DigitsEnd(text, at) == q && AllDigits(text[p..at])
      invariant ValueOf(text[p..at]) == i64 as int <= Limit(minus, true)
      decreases q - at
    {
      var d := text[at];
      ValueSnoc(text, p, at);
      DigitsStep(text, at);
      if minus && i64 >= 0x0CCC_CCCC_CCCC_CCCC && (i64 != 0x0CCC_CCCC_CCCC_CCCC || d > '8') {
        ValueMonotone(text, p, at + 1, q);
        return TooBig(i64, at);
      }
      if !minus && i64 >= 0x1999_9999_9999_9999 && (i64 != 0x1999_9999_9999_9999 || d > '5') {
        ValueMonotone(text, p, at + 1, q);
        return TooBig(i64, at);
      }
      i64 := i64 * 10 + Digit(d) as uint64;
      at := at + 1;
    }
    r := Wide(i64, at);
  }

  /** `static_cast<int32_t>(~i + 1)` and its 64-bit twin. */
  function NegatedInt32(i: uint32): (r: int)
    ensures i <= 0x8000_0000 ==> r == -(i as int)
  {
    var u := (0xFFFF_FFFF - i as int + 1) % 0x1_0000_0000;
    if u < 0x8000_0000 then u else u - 0x1_0000_0000
  }

  function NegatedInt64(i: uint64): (r: int)
    ensures i <= 0x8000_0000_0000_0000 ==> r == -(i as int)
  {
    var u := (0xFFFF_FFFF_FFFF_FFFF - i as int + 1) % 0x1_0000_0000_0000_0000;
    if u < 0x8000_0000_0000_0000 then u else u - 0x1_0000_0000_0000_0000
  }

  /** A literal: an optional minus sign, then one zero or a run of digits that does not begin with zero. */
  predicate IsMinus(text: string, p: nat) {
    Scanner.Peek(text, p) == '-'
  }

  function IntegerEnd(text: string, p: nat): (q: nat)
    requires p <= |text| && IsDigit(Scanner.Peek(text, p))
    ensures p < q <= |text| && AllDigits(text[p..q])
  {
    if text[p] == '0' then p + 1 else DigitsEnd(text, p)
  }

  datatype Parsed =
    | Integer(event: Event, next: nat)
    | NotInteger(at: nat) // a fraction, an exponent or too many digits: the double path goes on from `at`
    | Invalid(at: nat)

  /** What the integer path of ParseNumber makes of the text at `p`. */
  function IntegerLiteral(text: string, p: nat): (r: Parsed)
    requires p <= |text|
  {
    var minus := IsMinus(text, p);
    var d := if minus then p + 1 else p;
    if !IsDigit(Scanner.Peek(text, d)) then Invalid(d)
    else
      var q := IntegerEnd(text, d);
      var c := Scanner.Peek(text, q);
      var e := LiteralEvent(minus, ValueOf(text[d..q]));
      if e.Double? || c == '.' || c == 'e' || c == 'E' then NotInteger(d) else Integer(e, q)
  }

  /**
   * ParseNumber as far as it stays on integers. No accumulator overflows, and the event delivered carries the exact
   * value of the literal in the narrowest class its sign allows.
   */
  method ParseNumber(text: string, p: nat) returns (r: Parsed)
    requires p <= |text|
    ensures match IntegerLiteral(text, p)
            case Integer(e, q) => r == Integer(e, q)
            case Invalid(at) => r == Invalid(at)
            case NotInteger(_) => r.NotInteger?
  {
    var minus := IsMinus(text, p);
    var d := if minus then p + 1 else p;
    var scan := ScanInteger(text, d, minus);
    match scan
    case NoDigits => r := Invalid(d);
    case TooBig(_, at) => r := NotInteger(at);
    case Narrow(i, q) =>
      var c := Scanner.Peek(text, q);
      if c == '.' || c == 'e' || c == 'E' {
        r := NotInteger(q);
      } else {
        r := Integer(if minus then Int(NegatedInt32(i)) else Uint(i as int), q);
      }
    case Wide(i64, q) =>
      var c := Scanner.Peek(text, q);
      if c == '.' || c == 'e' || c == 'E' {
        r := NotInteger(q);
      } else {
        r := Integer(if minus then Int64(NegatedInt64(i64)) else Uint64(i64 as int), q);
      }
  }

  /** `Overflows` stands for the signed overflow of the accumulator, which has no value. */
  datatype Exponent = Exp(exp: int32, next: nat) | ExponentTooBig | MissExponent | Overflows

  /** A prefix of the digits is within the bound, and with the next digit beyond `int`. */
  ghost predicate OutgrowsInt(text: string, p: nat, q: nat, maxExp: int) {
    exists k :: GoesBeyond(text, p, q, maxExp, k)
  }

  ghost predicate GoesBeyond(text: string, p: nat, q: nat, maxExp: int, k: int) {
    && p < k < q <= |text| && AllDigits(text[p..k]) && AllDigits(text[p..k + 1])
    && ValueOf(text[p..k]) <= maxExp && ValueOf(text[p..k + 1]) >= 0x8000_0000
  }

  /** For a bound of fewer than 214748056 counted fraction digits, no exponent of any length can do that. */
  lemma BoundedExponentsFit(text: string, p: nat, q: nat, maxExp: int)
    requires maxExp <= 214748363
    ensures !OutgrowsInt(text, p, q, maxExp)
  {
    hide ValueOf;
    forall k | GoesBeyond(text, p, q, maxExp, k)
      ensures false
    {
      assert text[k] == text[p..k + 1][k - p] && text[k] in text[p..k + 1];
      ValueSnoc(text, p, k);
    }
  }

  /** From that bound on, the exponent 2147483648 does. */
  lemma LargeBoundOutgrown(text: string, p: nat, maxExp: int)
    requires p + 10 <= |text| && text[p..p + 10] == "2147483648" && maxExp >= 214748364
    ensures OutgrowsInt(text, p, p + 10, maxExp)
  {
    hide ValueOf;
    var ds := text[p..p + 10];
    assert text[p..p + 9] == ds[..9] == "214748364";
    assert text[p..p + 9 + 1] == ds;
    NineDigits();
    TenDigits();
    assert GoesBeyond(text, p, p + 10, maxExp, p + 9);
  }

  lemma ValueThen(ds: string, c: char)
    requires AllDigits(ds) && IsDigit(c)
    ensures AllDigits(ds + [c]) && ValueOf(ds + [c]) == ValueOf(ds) * 10 + Digit(c)
  {
    assert (ds + [c])[..|ds|] == ds;
  }

  lemma NineDigits()
    ensures AllDigits("214748364") && ValueOf("214748364") == 214748364
  {
    hide ValueOf;
    assert ValueOf("") == 0 by { EmptyValue(); }
    ValueThen("", '2');
    assert "" + ['2'] == "2";
    ValueThen("2", '1');
    assert "2" + ['1'] == "21";
    ValueThen("21", '4');
    assert "21" + ['4'] == "214";
    ValueThen("214", '7');
    assert "214" + ['7'] == "2147";
    ValueThen("2147", '4');
    assert "2147" + ['4'] == "21474";
    ValueThen("21474", '8');
    assert "21474" + ['8'] == "214748";
    ValueThen("214748", '3');
    assert "214748" + ['3'] == "2147483";
    ValueThen("2147483", '6');
    assert "2147483" + ['6'] == "21474836";
    ValueThen("21474836", '4');
    assert "21474836" + ['4'] == "214748364";
  }

  lemma EmptyValue()
    ensures ValueOf("") == 0
  {
  }

  lemma TenDigits()
    ensures AllDigits("2147483648") && ValueOf("2147483648") == 2147483648
  {
    hide ValueOf;
    NineDigits();
    ValueThen("214748364", '8');
    assert "214748364" + ['8'] == "2147483648";
  }

  // ---- The fraction

  datatype Fraction = Frac(expFrac: int32, next: nat) | MissFraction | FractionOverflows

  function LeadingZeros(text: string, p: nat): (z: nat)
    requires p <= |text|
    ensures p + z <= |text|
    decreases |text| - p
  {
    if Scanner.Peek(text, p) == '0' then 1 + LeadingZeros(text, p + 1) else 0
  }

  /** The fraction digits that count: those up to the 17th significant one after the first of the integer
    * part, and all zeros before the first significant one. */
  function Counted(text: string, p: nat, zero: bool, significandDigit: nat): (c: nat)
    requires p <= |text|
  {
    var available := DigitsEnd(text, p) - p;
    var wanted := (if zero then LeadingZeros(text, p) else 0) + if significandDigit < 17 then 17 - significandDigit else 0;
    if available < wanted then available else wanted
  }

  function Pow10(n: nat): (r: nat)
    ensures r > 0
  {
    if n == 0 then 1 else 10 * Pow10(n - 1)
  }

  /** Seventeen digits are beyond 2^53. */
  lemma {:induction false} FewSignificant(n: nat)
    requires n >= 16
    ensures Pow10(n) > 0x1F_FFFF_FFFF_FFFF
    decreases n
  {
    if n > 16 {
      FewSignificant(n - 1);
    } else {
      assert Pow10(4) == 10000 && Pow10(8) == 100000000 && Pow10(12) == 1000000000000;
    }
  }

  /** What the state of the fraction's loops is, with `i64` for the significand and `n` digits counted. */
  ghost predicate Counting(text: string, p: nat, zero: bool, first: nat, i64: nat, significandDigit: nat, n: nat) {
    && p <= |text| && p + n <= DigitsEnd(text, p)
    && (i64 == 0 ==> zero && significandDigit == 0 && LeadingZeros(text, p) == n + LeadingZeros(text, p + n))
    && (i64 > 0 && zero ==> significandDigit > 0 && significandDigit == n - LeadingZeros(text, p))
    && (!zero ==> i64 > 0 && significandDigit == first + n)
    && (zero ==> first == 0)
  }

  lemma CountDigit(text: string, p: nat, zero: bool, first: nat, i64: nat, significandDigit: nat, n: nat)
    requires p <= |text| && Counting(text, p, zero, first, i64, significandDigit, n) && IsDigit(Scanner.Peek(text, p + n))
    ensures p + n < DigitsEnd(text, p)
    ensures var next := i64 * 10 + Digit(text[p + n]);
      Counting(text, p, zero, first, next, if next != 0 then significandDigit + 1 else significandDigit, n + 1)
  {
    hide Pow10;
    MoreDigits(text, p, n);
  }

  lemma {:induction false} MoreDigits(text: string, p: nat, n: nat)
    requires p <= |text| && p + n <= DigitsEnd(text, p)
    ensures DigitsEnd(text, p + n) == DigitsEnd(text, p)
    ensures IsDigit(Scanner.Peek(text, p + n)) ==> p + n < DigitsEnd(text, p)
    decreases n
  {
    if n > 0 { MoreDigits(text, p + 1, n - 1); }
  }

  lemma MoreToCount(text: string, p: nat, zero: bool, first: nat, i64: nat, significandDigit: nat, n: nat)
    requires p <= |text| && Counting(text, p, zero, first, i64, significandDigit, n) && significandDigit < 17
    requires IsDigit(Scanner.Peek(text, p + n))
    ensures Counted(text, p, zero, first) > n
  {
    MoreDigits(text, p, n);
  }

  lemma CountedAll(text: string, p: nat, zero: bool, first: nat, i64: nat, significandDigit: nat, n: nat)
    requires p <= |text| && Counting(text, p, zero, first, i64, significandDigit, n)
    requires significandDigit <= 17 || n == 0
    requires p + n == DigitsEnd(text, p) || significandDigit >= 17
    ensures n == Counted(text, p, zero, first)
  {
  }

  /**
   * The digits after the decimal point. `i64` is the integer part, or what was kept of one that did not fit, with
   * `significandDigit` digits after its first. Each digit that counts lowers expFrac; it overflows exactly when more
   * than 2^31 digits count, which takes that many zeros.
   */
  method ScanFraction(text: string, p: nat, start: uint64, first: nat, useDouble: bool) returns (r: Fraction)
    requires p <= |text|
    requires if start == 0 then first == 0 && !useDouble else start as int >= Pow10(first)
    requires useDouble ==> first >= 17
    ensures r.MissFraction? <==> !IsDigit(Scanner.Peek(text, p))
    ensures !r.MissFraction? ==>
      var c: int := Counted(text, p, start == 0, first);
      if c <= 0x8000_0000 then r == Frac((-c) as int32, DigitsEnd(text, p)) else r == FractionOverflows
  {
    hide DigitsEnd, LeadingZeros, Counted, Counting, Pow10;
    DigitsStep(text, p);
    if !IsDigit(Scanner.Peek(text, p)) { return MissFraction; }
    var i64, significandDigit, at, expFrac := start, first, p, 0 as int32;
    ghost var zero, q := start == 0, DigitsEnd(text, p);
    CountingStarts(text, p, first, start as nat);
    if !useDouble {
      r, i64, significandDigit := ScanSignificand(text, p, start, first);
      if r.FractionOverflows? { return; }
      expFrac, at := r.expFrac, r.next;
    }
    ghost var n := at - p;
    while IsDigit(Scanner.Peek(text, at))
      invariant p <= at <= q && 0 <= n == -(expFrac as int) <= at - p
      invariant Counting(text, p, zero, first, i64 as int, significandDigit, n)
      invariant i64 > 0 || !IsDigit(Scanner.Peek(text, at))
      invariant n == at - p || significandDigit >= 17
      invariant significandDigit <= 17 || n == 0
      decreases q - at
    {
      MoreDigits(text, p, at - p);
      if significandDigit < 17 {
        CountDigit(text, p, zero, first, i64 as int, significandDigit, n);
        if expFrac == -0x8000_0000 {
          MoreToCount(text, p, zero, first, i64 as int, significandDigit, n);
          return FractionOverflows;
        }
        CountingOn(text, p, zero, first, i64 as int, i64 as int * 10 + Digit(text[at]), significandDigit + 1, n + 1);
        expFrac := expFrac - 1;
        significandDigit := significandDigit + 1; // the significand is not zero here
        n := n + 1;
      }
      at := at + 1;
    }
    MoreDigits(text, p, at - p);
    DigitsStep(text, at);
    CountedAll(text, p, zero, first, i64 as int, significandDigit, n);
    r := Frac(expFrac, at);
  }

  lemma CountingStarts(text: string, p: nat, first: nat, i64: nat)
    requires p <= |text| && (i64 == 0 ==> first == 0)
    ensures Counting(text, p, i64 == 0, first, i64, first, 0)
  {
  }

  /** The significand itself does not matter once it is not zero. */
  lemma CountingOn(text: string, p: nat, zero: bool, first: nat, i64: nat, next: nat, significandDigit: nat, n: nat)
    requires i64 > 0 && next > 0 && Counting(text, p, zero, first, next, significandDigit, n)
    ensures Counting(text, p, zero, first, i64, significandDigit, n)
  {
  }

  /** The first of the two loops, which keeps the significand in 64 bits while it is below 2^53. */
  method ScanSignificand(text: string, p: nat, start: uint64, first: nat) returns (r: Fraction, i64: uint64, significandDigit: nat)
    requires p <= |text| && IsDigit(Scanner.Peek(text, p))
    requires if start == 0 then first == 0 else start as int >= Pow10(first)
    ensures !r.MissFraction?
    ensures r.FractionOverflows? ==> Counted(text, p, start == 0, first) > 0x8000_0000
    ensures r.Frac? ==>
      && p <= r.next <= DigitsEnd(text, p) && r.expFrac as int == p - r.next
      && Counting(text, p, start == 0, first, i64 as int, significandDigit, r.next - p)
      && (significandDigit <= 17 || r.next == p)
      && (i64 > 0 || !IsDigit(Scanner.Peek(text, r.next)))
  {
    hide DigitsEnd, LeadingZeros, Counted, Counting, Pow10;
    ghost var zero, q := start == 0, DigitsEnd(text, p);
    var at, expFrac := p, 0 as int32;
    i64, significandDigit := start, first;
    CountingStarts(text, p, first, start as nat);
    while IsDigit(Scanner.Peek(text, at)) && i64 <= 0x1F_FFFF_FFFF_FFFF
      invariant p <= at <= q && expFrac as int == p - at
      invariant Counting(text, p, zero, first, i64 as int, significandDigit, at - p)
      invariant i64 > 0 ==> i64 as int >= Pow10(if zero && significandDigit > 0 then significandDigit - 1 else significandDigit)
      invariant at > p ==> significandDigit <= 17
      decreases q - at
    {
      CountDigit(text, p, zero, first, i64 as int, significandDigit, at - p);
      if expFrac == -0x8000_0000 {
        StillFew(text, p, zero, first, i64 as int, significandDigit, at - p);
        MoreToCount(text, p, zero, first, i64 as int, significandDigit, at - p);
        return FractionOverflows, i64, significandDigit;
      }
      StillFew(text, p, zero, first, i64 as int, significandDigit, at - p);
      i64 := (i64 as int * 10 + Digit(text[at])) as uint64;
      expFrac := expFrac - 1;
      if i64 != 0 { significandDigit := significandDigit + 1; }
      at := at + 1;
    }
    r := Frac(expFrac, at);
  }

  /** Below 2^53 there are at most sixteen significant digits, and a digit more is one more power of ten. */
  lemma StillFew(text: string, p: nat, zero: bool, first: nat, i64: nat, significandDigit: nat, n: nat)
    requires Counting(text, p, zero, first, i64, significandDigit, n) && i64 <= 0x1F_FFFF_FFFF_FFFF
    requires i64 > 0 ==> i64 >= Pow10(if zero && significandDigit > 0 then significandDigit - 1 else significandDigit)
    ensures significandDigit < 17
    ensures i64 > 0 ==> i64 * 10 >= Pow10(if zero then significandDigit else significandDigit + 1)
    ensures i64 == 0 ==> zero && significandDigit == 0 && Pow10(0) == 1
  {
    if i64 > 0 && significandDigit >= 17 { FewSignificant(if zero then significandDigit - 1 else significandDigit); }
  }

  lemma {:induction false} ZerosCount(text: string, p: nat, n: nat)
    requires p + n < |text| && (forall k | p <= k < p + n :: text[k] == '0') && text[p + n] == 'e'
    ensures Counted(text, p, true, 0) == n && DigitsEnd(text, p) == p + n && LeadingZeros(text, p) == n
    decreases n
  {
    if n > 0 { ZerosCount(text, p + 1, n - 1); }
  }

  /** 0.00…0e2147483648 overflows when the fraction has 214748056 zeros or more. */
  lemma LongFractionOverflows(n: nat)
    requires n >= 214748056
    ensures var text := seq(n, _ => '0') + "e2147483648";
      Counted(text, 0, true, 0) == n && OutgrowsInt(text, n + 1, n + 11, 308 + n)
  {
    hide OutgrowsInt, Counted;
    var text := seq(n, _ => '0') + "e2147483648";
    ZerosCount(text, 0, n);
    assert text[n + 1..n + 11] == "e2147483648"[1..11];
    LargeBoundOutgrown(text, n + 1, 308 + n);
  }

  /**
   * The exponent, after its sign; the bound of a positive one is 308 - expFrac. A negative exponent of any length
   * leaves the accumulator in range, and so does a positive one unless the bound itself is too much for `int`, or a
   * prefix of the exponent is within the bound and the next digit is too much.
   */
  method ScanExponent(text: string, p: nat, expMinus: bool, expFrac: int32) returns (r: Exponent)
    requires p <= |text| && expFrac <= 0
    ensures r.MissExponent? <==> !IsDigit(Scanner.Peek(text, p))
    ensures r.Overflows? <==>
      !r.MissExponent? && !expMinus &&
      (308 - expFrac as int > 0x7FFF_FFFF || OutgrowsInt(text, p, DigitsEnd(text, p), 308 - expFrac as int))
    ensures r.Overflows? ==> -(expFrac as int) >= 214748056
    ensures !r.MissExponent? && !r.Overflows? ==>
              var q, maxExp := DigitsEnd(text, p), 308 - expFrac as int;
              var v: int := ValueOf(text[p..q]);
              && (r.ExponentTooBig? <==> !expMinus && v > maxExp && q > p + 1)
              && (r.Exp? ==> r.next == q)
              && (r.Exp? && !expMinus ==> r.exp as int == v)
              && (r.Exp? && expMinus ==> r.exp as int == -(Kept(text, p, q, 0) as int))
              && (r.Exp? && expMinus ==> if v < 214748364 then r.exp as int == -v else -v <= r.exp as int <= -214748364)
  {
    hide ValueOf;
    ghost var q, bound := DigitsEnd(text, p), 308 - expFrac as int;
    if bound <= 214748363 { BoundedExponentsFit(text, p, q, bound); }
    if !IsDigit(Scanner.Peek(text, p)) {
      DigitsStep(text, p);
      return MissExponent;
    }
    if expMinus {
      r := ScanNegativeExponent(text, p);
    } else if expFrac < -2147483339 {
      return Overflows;
    } else {
      r := ScanPositiveExponent(text, p, 308 - expFrac);
    }
  }

  method ScanPositiveExponent(text: string, p: nat, maxExp: int32) returns (r: Exponent)
    requires p < |text| && IsDigit(text[p]) && 0 <= maxExp
    ensures var q := DigitsEnd(text, p);
            var v := ValueOf(text[p..q]);
            if OutgrowsInt(text, p, q, maxExp as int) then r == Overflows
            else if v > maxExp as int && q > p + 1 then r == ExponentTooBig
            else r.Exp? && r.next == q && r.exp as int == v
  {
    hide ValueOf, DigitsEnd, OutgrowsInt;
    OneDigit(text, p);
    DigitsStep(text, p);
    ghost var q, bound := DigitsEnd(text, p), maxExp as int;
    var exp: int32 := Digit(text[p]) as int32;
    var at := p + 1;
    while IsDigit(Scanner.Peek(text, at))
      invariant p < at <= q && DigitsEnd(text, at) == q && AllDigits(text[p..at])
      invariant ValueOf(text[p..at]) == exp as int && (exp <= maxExp || (at == p + 1 && exp <= 9))
      invariant forall k :: p < k < at ==> !GoesBeyond(text, p, q, bound, k)
      decreases q - at
    {
      ValueSnoc(text, p, at);
      DigitsStep(text, at);
      var next := exp as int * 10 + Digit(text[at]);
      if next > 0x7FFF_FFFF {
        assert GoesBeyond(text, p, q, bound, at);
        Outgrown(text, p, q, bound, at);
        return Overflows;
      }
      assert !GoesBeyond(text, p, q, bound, at);
      exp := next as int32;
      at := at + 1;
      if exp > maxExp {
        ValueMonotone(text, p, at, q);
        NotOutgrown(text, p, q, bound, at);
        return ExponentTooBig;
      }
    }
    DigitsStep(text, at);
    if exp <= maxExp { NotOutgrown(text, p, q, bound, at); } else { NotOutgrown(text, p, q, bound, q); }
    r := Exp(exp, at);
  }

  lemma Outgrown(text: string, p: nat, q: nat, maxExp: int, k: int)
    requires GoesBeyond(text, p, q, maxExp, k)
    ensures OutgrowsInt(text, p, q, maxExp)
  {
  }

  /** Nothing goes beyond before `at`, and from there on the value is beyond the bound already. */
  lemma NotOutgrown(text: string, p: nat, q: nat, maxExp: int, at: nat)
    requires p < at <= q <= |text| && AllDigits(text[p..q])
    requires forall k :: p < k < at ==> !GoesBeyond(text, p, q, maxExp, k)
    requires at == q || (AllDigits(text[p..at]) && ValueOf(text[p..at]) > maxExp)
    ensures !OutgrowsInt(text, p, q, maxExp)
  {
    hide ValueOf;
    forall k | GoesBeyond(text, p, q, maxExp, k)
      ensures false
    {
      if k >= at {
        ValueMonotone(text, p, at, k);
      }
    }
  }

  /** Once the accumulator is large, the remaining digits are only consumed. */
  method ScanNegativeExponent(text: string, p: nat) returns (r: Exponent)
    requires p < |text| && IsDigit(text[p])
    ensures var q := DigitsEnd(text, p);
            var v: int := ValueOf(text[p..q]);
            && r.Exp? && r.next == q
            && (if v < 214748364 then r.exp as int == -v else -v <= r.exp as int <= -214748364)
            && r.exp as int == -(Kept(text, p, q, 0) as int)
  {
    hide ValueOf, DigitsEnd;
    OneDigit(text, p);
    DigitsStep(text, p);
    ghost var q := DigitsEnd(text, p);
    assert text[p..q][0] == text[p] && Kept(text, p, q, 0) == Kept(text, p + 1, q, Digit(text[p]));
    var exp: int32 := Digit(text[p]) as int32;
    var at := p + 1;
    while IsDigit(Scanner.Peek(text, at))
      invariant p < at <= q && DigitsEnd(text, at) == q && AllDigits(text[p..at])
      invariant if exp < 214748364 then 0 <= exp && ValueOf(text[p..at]) == exp as int
                else at == q && exp as int <= ValueOf(text[p..q])
      invariant exp >= 0 && Kept(text, at, q, exp as nat) == Kept(text, p, q, 0)
      decreases q - at
    {
      DigitsStep(text, at);
      ValueSnoc(text, p, at);
      exp := exp * 10 + Digit(text[at]) as int32;
      at := at + 1;
      if exp >= 214748364 {
        ValueMonotone(text, p, at, q);
        at := SkipDigits(text, at);
      }
    }
    DigitsStep(text, at);
    r := Exp(-exp, at);
  }

  /** What the accumulator keeps of the digits of a negative exponent: it stops once it is large. */
  function Kept(text: string, at: nat, q: nat, v: nat): (k: nat)
    ensures v < 214748364 ==> k <= 2147483639
    ensures v >= 214748364 ==> k == v
    decreases q - at
  {
    if at >= q || q > |text| || !IsDigit(text[at]) || v >= 214748364 then v else Kept(text, at + 1, q, v * 10 + Digit(text[at]))
  }

  /** The power of ten that goes into the conversion, exp + expFrac in `int`; none where the sum overflows. */
  method DecimalPower(exp: int32, expFrac: int32) returns (p: Option<int32>)
    requires expFrac <= 0 && exp as int <= 308 - expFrac as int
    ensures p.None? <==> exp as int + expFrac as int < -0x8000_0000
    ensures p.Some? ==> p.value as int == exp as int + expFrac as int <= 308
  {
    if exp as int + expFrac as int < -0x8000_0000 { return None; }
    p := Some(exp + expFrac);
  }

  /** With at most nine counted fraction digits no negative exponent of any length makes it overflow. */
  lemma NineFractionDigitsFit(text: string, p: nat, q: nat, counted: nat)
    requires counted <= 9
    ensures -(Kept(text, p, q, 0) as int) - counted >= -0x8000_0000
  {
  }

  /** With ten the exponent -2147483639 does: 0.0000000000e-2147483639. */
  lemma DecimalPowerOverflows(n: nat)
    requires n >= 10
    ensures var text := seq(n, _ => '0') + "e-2147483639";
      Counted(text, 0, true, 0) == n && -(Kept(text, n + 2, n + 12, 0) as int) - n < -0x8000_0000
  {
    hide Counted;
    var text := seq(n, _ => '0') + "e-2147483639";
    ZerosCount(text, 0, n);
    assert text[n + 2..n + 12] == "2147483639";
    KeptDigits(text, n + 2);
  }

  lemma KeptStep(text: string, at: nat, q: nat, v: nat, c: char)
    requires at < q <= |text| && text[at] == c && IsDigit(c) && v < 214748364
    ensures Kept(text, at, q, v) == Kept(text, at + 1, q, v * 10 + Digit(c))
  {
  }

  lemma KeptDigits(text: string, p: nat)
    requires p + 10 <= |text| && text[p..p + 10] == "2147483639"
    ensures Kept(text, p, p + 10, 0) == 2147483639
  {
    hide Kept;
    assert forall i | 0 <= i < 10 :: text[p + i] == "2147483639"[i];
    KeptStep(text, p + 0, p + 10, 0, '2');
    KeptStep(text, p + 1, p + 10, 2, '1');
    KeptStep(text, p + 2, p + 10, 21, '4');
    KeptStep(text, p + 3, p + 10, 214, '7');
    KeptStep(text, p + 4, p + 10, 2147, '4');
    KeptStep(text, p + 5, p + 10, 21474, '8');
    KeptStep(text, p + 6, p + 10, 214748, '3');
    KeptStep(text, p + 7, p + 10, 2147483, '6');
    KeptStep(text, p + 8, p + 10, 21474836, '3');
    KeptStep(text, p + 9, p + 10, 214748363, '9');
  }

  method SkipDigits(text: string, p: nat) returns (q: nat)
    requires p <= |text|
    ensures q == DigitsEnd(text, p)
  {
    q := p;
    while IsDigit(Scanner.Peek(text, q))
      invariant p <= q <= DigitsEnd(text, p) == DigitsEnd(text, q)
      decreases |text| - q
    {
      q := q + 1;
    }
  }
}
