/** Strings by the grammar of section 2.5 of RFC 4627, and that the reader scans exactly those. */
module StringGrammar {
  import opened Options
  import opened Characters
  import opened Sax
  import opened Scanner
  import S = Strings
  import Utf8
  import P = PrettyRoundTrip

  // ---- The grammar

  predicate FourHex(ds: string) { |ds| == 4 && forall c | c in ds :: IsHex(c) }

  /** The number that four hexadecimal digits denote. */
  function CodeUnit(ds: string): (u: nat)
    requires FourHex(ds)
    ensures u < 0x10000
  {
    assert ds[0] in ds && ds[1] in ds && ds[2] in ds && ds[3] in ds;
    0x1000 * HexDigit(ds[0]) + 0x100 * HexDigit(ds[1]) + 0x10 * HexDigit(ds[2]) + HexDigit(ds[3])
  }

  predicate IsHigh(u: nat) { 0xD800 <= u <= 0xDBFF }

  predicate IsLow(u: nat) { 0xDC00 <= u <= 0xDFFF }

  /** A character of a string as it is written: itself, an escape with a letter, a code unit of UTF-16, or a
    * surrogate pair. */
  datatype Item = Plain(c: char) | Short(letter: char) | Unicode(digits: string) | Pair(high: string, low: string)

  /** What the letter after a backslash stands for, if it may stand there. */
  function Letter(c: char): Option<char> {
    match c
    case '"' => Some('\U{22}')
    case '\\' => Some('\U{5C}')
    case '/' => Some('\U{2F}')
    case 'b' => Some('\U{8}')
    case 'f' => Some('\U{C}')
    case 'n' => Some('\U{A}')
    case 'r' => Some('\U{D}')
    case 't' => Some('\U{9}')
    case _ => None
  }

  /** By the grammar; a high surrogate must have its low one behind it, which the grammar leaves open. */
  predicate Valid(i: Item) {
    match i
    case Plain(c) => c as int >= 0x20 && c as int != 0x22 && c as int != 0x5C
    case Short(letter) => Letter(letter).Some?
    case Unicode(ds) => FourHex(ds) && !IsHigh(CodeUnit(ds))
    case Pair(h, l) => FourHex(h) && FourHex(l) && IsHigh(CodeUnit(h)) && IsLow(CodeUnit(l))
  }

  function Spelling(i: Item): string {
    match i
    case Plain(c) => [c]
    case Short(letter) => ['\\', letter]
    case Unicode(ds) => "\\u" + ds
    case Pair(h, l) => ("\\u" + h) + ("\\u" + l)
  }

  /** The code point of a surrogate pair, by section 2.2 of RFC 2781. */
  function Joined(high: nat, low: nat): (cp: nat)
    requires IsHigh(high) && IsLow(low)
    ensures 0x10000 <= cp <= 0x10FFFF
    ensures high == 0xD800 + (cp - 0x10000) / 0x400 && low == 0xDC00 + (cp - 0x10000) % 0x400
  {
    0x10000 + 0x400 * (high - 0xD800) + (low - 0xDC00)
  }

  /** The code units that the handler is to get, in UTF-8. */
  function Meaning(i: Item): string
    requires Valid(i)
  {
    match i
    case Plain(c) => [c]
    case Short(letter) => [Letter(letter).value]
    case Unicode(ds) => S.Units(Utf8.Encode(CodeUnit(ds)))
    case Pair(h, l) => S.Units(Utf8.Encode(Joined(CodeUnit(h), CodeUnit(l))))
  }

  predicate AllValid(items: seq<Item>) { forall i | i in items :: Valid(i) }

  function Spellings(items: seq<Item>): string {
    if items == [] then "" else Spelling(items[0]) + Spellings(items[1..])
  }

  function Meanings(items: seq<Item>): string
    requires AllValid(items)
  {
    if items == [] then "" else Meaning(items[0]) + Meanings(items[1..])
  }

  /** Quotation mark, characters, quotation mark. */
  ghost predicate SpelledBy(text: string, p: nat, items: seq<Item>, units: string, q: nat) {
    var close := p + 1 + |Spellings(items)|;
    && p < |text| && text[p] as int == 0x22
    && AllValid(items) && P.At(text, p + 1, Spellings(items)) && units == Meanings(items)
    && close < |text| && text[close] as int == 0x22 && q == close + 1
  }

  /** From `p` to `q` stands a string that means `units`. */
  ghost predicate IsString(text: string, p: nat, units: string, q: nat) {
    exists items :: SpelledBy(text, p, items, units, q)
  }

  // ---- Hexadecimal digits

  lemma HexDigitIs(c: char)
    ensures S.HexValue(c) == if IsHex(c) then HexDigit(c) else -1
  {
    HexIs(c);
  }

  predicate FourHexAt(text: string, p: nat) { p + 4 <= |text| && FourHex(text[p..p + 4]) }

  function UnitAt(text: string, p: nat): nat
    requires FourHexAt(text, p)
  {
    CodeUnit(text[p..p + 4])
  }

  /** The reader's four digits are those of the grammar. */
  lemma Hex4Is(text: string, p: nat)
    ensures S.Hex4(text, p) == if FourHexAt(text, p) then UnitAt(text, p) else -1
  {
    hide S.HexValue, IsHex, HexDigit;
    HexDigitIs(Peek(text, p));
    HexDigitIs(Peek(text, p + 1));
    HexDigitIs(Peek(text, p + 2));
    HexDigitIs(Peek(text, p + 3));
    NoHexEnd();
    if p + 4 <= |text| {
      FourAre(text[p..p + 4]);
    }
  }

  lemma NoHexEnd()
    ensures !IsHex('\0')
  {
  }

  lemma FourAre(ds: string)
    requires |ds| == 4
    ensures FourHex(ds) <==> IsHex(ds[0]) && IsHex(ds[1]) && IsHex(ds[2]) && IsHex(ds[3])
  {
    hide IsHex;
    assert ds == [ds[0], ds[1], ds[2], ds[3]];
  }

  // ---- What the writer chooses

  /** The letter that stands for a character that must be escaped, if there is one. */
  predicate HasLetter(c: char, letter: char) { letter != '/' && Letter(letter) == Some(c) }

  /** The writer escapes only what it must: by a letter where there is one, and otherwise by a code unit in capitals. */
  lemma WritesShortest(c: char, letter: char)
    ensures HasLetter(c, letter) ==> S.WriteUnit(c) == ['\\', letter]
    ensures c as int >= 0x20 && c != '"' && c != '\\' ==> S.WriteUnit(c) == [c]
    ensures c as int < 0x20 && (forall l :: !HasLetter(c, l)) ==>
      S.WriteUnit(c) == "\\u00" + [UPPER_HEX[c as int / 16], UPPER_HEX[c as int % 16]]
  {
    assert HasLetter('\U{8}', 'b') && HasLetter('\U{9}', 't') && HasLetter('\U{A}', 'n') && HasLetter('\U{C}', 'f') && HasLetter('\U{D}', 'r');
    if c as int < 0x20 && forall l :: !HasLetter(c, l) { ControlWritten(c); }
  }

  lemma ControlWritten(c: char)
    requires c as int < 0x20 && c as int != 8 && c as int != 9 && c as int != 0xA && c as int != 0xC && c as int != 0xD
    ensures S.WriteUnit(c) == "\\u00" + [UPPER_HEX[c as int / 16], UPPER_HEX[c as int % 16]]
  {
  }

  // ---- One character

  lemma AtPlus(text: string, p: nat, a: string, b: string)
    requires P.At(text, p, a) && P.At(text, p + |a|, b)
    ensures P.At(text, p, a + b)
  {
    assert text[p..p + |a + b|] == text[p..p + |a|] + text[p + |a|..p + |a| + |b|];
  }

  /** An item stands at `p`. */
  predicate ItemAt(text: string, p: nat, i: Item) { Valid(i) && P.At(text, p, Spelling(i)) }

  lemma HexOf(text: string, p: nat, ds: string)
    requires FourHex(ds) && P.At(text, p, ds)
    ensures FourHexAt(text, p) && UnitAt(text, p) == CodeUnit(ds) == S.Hex4(text, p)
  {
    hide FourHex, CodeUnit;
    assert |ds| == 4 by { LengthFour(ds); }
    Hex4Is(text, p);
  }

  lemma LengthFour(ds: string)
    requires FourHex(ds)
    ensures |ds| == 4
  {
  }

  lemma ShortRead(text: string, p: nat, letter: char)
    requires Letter(letter).Some? && P.At(text, p, ['\\', letter])
    ensures p < |text| && Peek(text, p) == '\\' && S.ReadEscape(text, p) == S.Escape([Letter(letter).value], p + 2)
  {
    hide S.Hex4, Utf8.Encode, S.Unescaped, Letter;
    var w := ['\\', letter];
    S.PeekAt(text, p, w);
    assert w[0] == Peek(text, p + 0) && w[1] == Peek(text, p + 1);
    LettersAgree(letter);
  }

  lemma UnicodeRead(text: string, p: nat, ds: string)
    requires FourHex(ds) && P.At(text, p, "\\u" + ds)
    ensures p + 6 <= |text| && Peek(text, p) == '\\' && Peek(text, p + 1) == 'u' && S.Hex4(text, p + 2) == CodeUnit(ds)
  {
    hide FourHex, CodeUnit, S.Hex4, FourHexAt;
    LengthFour(ds);
    S.AtSplit(text, p, "\\u", ds);
    BackslashU(text, p);
    HexOf(text, p + 2, ds);
  }

  lemma PairRead(text: string, p: nat, h: string, l: string)
    requires Valid(Pair(h, l)) && P.At(text, p, Spelling(Pair(h, l)))
    ensures p < |text| && Peek(text, p) == '\\' && S.ReadEscape(text, p) == S.Escape(Meaning(Pair(h, l)), p + 12)
    ensures |Spelling(Pair(h, l))| == 12
  {
    hide FourHex, CodeUnit, S.Hex4, Utf8.Encode, P.At, S.Unescaped, Letter;
    LengthFour(h);
    LengthFour(l);
    LettersAgree('u');
    NoLetter();
    S.AtSplit(text, p, "\\u" + h, "\\u" + l);
    UnicodeRead(text, p, h);
    UnicodeRead(text, p + 6, l);
  }

  /** What the reader makes of an escape. */
  lemma EscapeRead(text: string, p: nat, i: Item)
    requires ItemAt(text, p, i) && !i.Plain?
    ensures p < |text| && Peek(text, p) == '\\' && S.ReadEscape(text, p) == S.Escape(Meaning(i), p + |Spelling(i)|)
  {
    hide FourHex, CodeUnit, S.Hex4, Utf8.Encode, P.At, S.Unescaped, Letter;
    LettersAgree('u');
    NoLetter();
    match i
    case Short(letter) => ShortRead(text, p, letter);
    case Unicode(ds) =>
      LengthFour(ds);
      UnicodeRead(text, p, ds);
    case Pair(h, l) => PairRead(text, p, h, l);
  }

  lemma PlainRead(text: string, p: nat, c: char, acc: string)
    requires Valid(Plain(c)) && p < |text| && text[p] == c
    ensures S.ReadUnits(text, p, acc) == S.ReadUnits(text, p + 1, acc + [c])
  {
    hide S.ReadEscape;
  }

  lemma EscapeTaken(text: string, p: nat, units: string, next: nat, acc: string)
    requires p < |text| && Peek(text, p) == '\\' && S.ReadEscape(text, p) == S.Escape(units, next)
    ensures p < next <= |text| && S.ReadUnits(text, p, acc) == S.ReadUnits(text, next, acc + units)
  {
    hide S.ReadEscape;
  }

  lemma PlainItem(text: string, p: nat, i: Item)
    requires ItemAt(text, p, i) && i.Plain?
    ensures p < |text| && text[p] == i.c && Spelling(i) == Meaning(i) == [i.c] && Valid(Plain(i.c))
  {
    assert text[p] == text[p..p + 1][0];
  }

  lemma ItemRead(text: string, p: nat, i: Item, acc: string)
    requires ItemAt(text, p, i)
    ensures p + |Spelling(i)| <= |text|
    ensures S.ReadUnits(text, p, acc) == S.ReadUnits(text, p + |Spelling(i)|, acc + Meaning(i))
  {
    hide S.ReadEscape, S.ReadUnits, Spelling, Meaning, Valid, P.At;
    if i.Plain? {
      PlainItem(text, p, i);
      PlainRead(text, p, i.c, acc);
    } else {
      EscapeRead(text, p, i);
      EscapeTaken(text, p, Meaning(i), p + |Spelling(i)|, acc);
    }
  }

  lemma {:induction false} ItemsRead(text: string, p: nat, items: seq<Item>, acc: string)
    requires AllValid(items) && P.At(text, p, Spellings(items))
    ensures p + |Spellings(items)| <= |text|
    ensures S.ReadUnits(text, p, acc) == S.ReadUnits(text, p + |Spellings(items)|, acc + Meanings(items))
    decreases |items|
  {
    hide S.ReadUnits, Valid, Meaning, Spelling;
    if items == [] {
      assert acc + "" == acc;
    } else {
      var i, rest := items[0], items[1..];
      S.AtSplit(text, p, Spelling(i), Spellings(rest));
      ItemRead(text, p, i, acc);
      ItemsRead(text, p + |Spelling(i)|, rest, acc + Meaning(i));
      assert (acc + Meaning(i)) + Meanings(rest) == acc + Meanings(items);
    }
  }

  lemma OneUnit(text: string, p: nat)
    requires Peek(text, p) == '\\' && Peek(text, p + 1) == 'u' && p + 6 <= |text|
    ensures P.At(text, p, "\\u" + text[p + 2..p + 6]) && |text[p + 2..p + 6]| == 4
  {
    assert text[p..p + 6] == "\\u" + text[p + 2..p + 6];
  }

  /** An escape that the reader takes is one of the grammar. */
  lemma ReadEscapeItem(text: string, p: nat) returns (i: Item)
    requires p < |text| && text[p] == '\\' && S.ReadEscape(text, p).Escape?
    ensures ItemAt(text, p, i) && !i.Plain?
  {
    hide FourHex, CodeUnit, S.Hex4, Utf8.Encode, S.Units;
    var e := Peek(text, p + 1);
    if Letter(e).Some? {
      i := Short(e);
    } else {
      Hex4Is(text, p + 2);
      var ds := text[p + 2..p + 6];
      OneUnit(text, p);
      if IsHigh(UnitAt(text, p + 2)) {
        Hex4Is(text, p + 8);
        var l := text[p + 8..p + 12];
        OneUnit(text, p + 6);
        AtPlus(text, p, "\\u" + ds, "\\u" + l);
        i := Pair(ds, l);
      } else {
        i := Unicode(ds);
      }
    }
  }

  // ---- The whole string

  /** How far the reader comes: the items it takes, and the place where it stops. */
  lemma {:induction false} ReadItems(text: string, p: nat, acc: string) returns (items: seq<Item>, o: nat)
    requires p <= |text|
    ensures AllValid(items) && P.At(text, p, Spellings(items)) && o == p + |Spellings(items)| <= |text|
    ensures Stops(text, o) && S.ReadUnits(text, p, acc) == StopResult(text, o, acc + Meanings(items))
    decreases |text| - p
  {
    hide S.ReadEscape, Valid, Spelling, Meaning;
    var c := Peek(text, p);
    if Stops(text, p) {
      items, o := [], p;
      assert acc + "" == acc;
    } else {
      var i := TakeItem(text, p);
      ItemRead(text, p, i, acc);
      ItemLength(i);
      var rest;
      rest, o := ReadItems(text, p + |Spelling(i)|, acc + Meaning(i));
      items := [i] + rest;
      assert items[1..] == rest;
      AtPlus(text, p, Spelling(i), Spellings(rest));
      assert (acc + Meaning(i)) + Meanings(rest) == acc + Meanings(items);
    }
  }

  lemma ItemLength(i: Item)
    ensures Spelling(i) != ""
  {
  }

  lemma TakeItem(text: string, p: nat) returns (i: Item)
    requires p <= |text| && !Stops(text, p)
    ensures ItemAt(text, p, i)
  {
    hide S.ReadEscape, FourHex, CodeUnit;
    if text[p] == '\\' {
      i := ReadEscapeItem(text, p);
    } else {
      i := Plain(text[p]);
      assert text[p..p + 1] == [text[p]];
    }
  }

  /** The reader goes no further: the closing quotation mark, the end, a control character, or an escape that
    * is none. */
  predicate Stops(text: string, o: nat)
    requires o <= |text|
  {
    var c := Peek(text, o);
    c == '"' || c < ' ' || (c == '\\' && S.ReadEscape(text, o).BadEscape?)
  }

  /** What it reports there. */
  function StopResult(text: string, o: nat, units: string): LexedString
    requires o <= |text| && Stops(text, o)
  {
    var c := Peek(text, o);
    if c == '"' then StringAt(units, o + 1)
    else if c == '\\' then StringError(S.ReadEscape(text, o).code, o)
    else if c == '\0' then StringError(StringMissQuotationMark, o)
    else StringError(StringEscapeInvalid, o)
  }

  /**
   * The reader scans exactly the strings of the grammar, except those in which a high surrogate has no low one behind
   * it, and gives what they mean.
   */
  lemma ScansExactlyStrings(text: string, p: nat, units: string, q: nat)
    requires p < |text| && text[p] == '"'
    ensures S.LexString(text, p) == StringAt(units, q) <==> IsString(text, p, units, q)
  {
    hide S.ReadUnits, P.At, AllValid, Spellings, Meanings, Stops, StopResult;
    if S.LexString(text, p) == StringAt(units, q) {
      var items, o := ReadItems(text, p + 1, "");
      assert "" + Meanings(items) == Meanings(items);
      StoppedByQuote(text, o, "" + Meanings(items));
      assert SpelledBy(text, p, items, units, q);
    }
    forall items | SpelledBy(text, p, items, units, q)
      ensures S.LexString(text, p) == StringAt(units, q)
    {
      ItemsRead(text, p + 1, items, "");
      assert "" + Meanings(items) == Meanings(items);
      QuoteEnds(text, q - 1, Meanings(items));
    }
  }

  /** The same of the string that the handler gets. */
  lemma DeliversExactlyStrings(text: string, p: nat, past: string -> string, str: string, q: nat)
    requires p < |text| && text[p] == '"'
    ensures S.Deliver(past, S.LexString(text, p)) == StringAt(str, q) <==>
      exists units :: IsString(text, p, units, q) && str == S.Handed(past, units)
  {
    hide S.LexString, S.Handed, IsString;
    var l := S.LexString(text, p);
    if l.StringAt? { ScansExactlyStrings(text, p, l.s, l.next); }
    forall units | IsString(text, p, units, q)
      ensures l == StringAt(units, q)
    {
      ScansExactlyStrings(text, p, units, q);
    }
  }

  /** A lone low surrogate, which no UTF-8 has, is delivered as the three bytes of its bits. */
  lemma LoneLowSurrogate(u: nat)
    requires IsLow(u)
    ensures var b := Utf8.Encode(u); |b| == 3 && u == 0x1000 * (b[0] as int - 0xE0) + 0x40 * (b[1] as int - 0x80) + (b[2] as int - 0x80)
  {
  }

  lemma StoppedByQuote(text: string, o: nat, units: string)
    requires o <= |text| && Stops(text, o) && StopResult(text, o, units).StringAt?
    ensures o < |text| && text[o] == '"' && StopResult(text, o, units) == StringAt(units, o + 1)
  {
  }

  lemma QuoteEnds(text: string, o: nat, acc: string)
    requires o < |text| && text[o] == '"'
    ensures S.ReadUnits(text, o, acc) == StringAt(acc, o + 1)
  {
  }

  // ---- What is reported otherwise

  /** The unit of UTF-16 that a backslash, a `u` and four digits at `p` stand for, if they do. */
  predicate UnicodeAt(text: string, p: nat) { P.At(text, p, "\\u") && FourHexAt(text, p + 2) }

  /** Why no character of the grammar stands at `o`. */
  predicate Fault(text: string, o: nat, code: ErrorCode)
    requires o <= |text|
  {
    match code
    case StringMissQuotationMark => o == |text| || text[o] as int == 0
    case StringEscapeInvalid =>
      o < |text| && (0 < text[o] as int < 0x20 ||
                     (text[o] == '\\' && (o + 1 < |text| ==> Letter(text[o + 1]).None? && text[o + 1] != 'u')))
    case StringUnicodeEscapeInvalidHex =>
      P.At(text, o, "\\u") &&
      (!FourHexAt(text, o + 2) || (IsHigh(UnitAt(text, o + 2)) && P.At(text, o + 6, "\\u") && !FourHexAt(text, o + 8)))
    case StringUnicodeSurrogateInvalid =>
      UnicodeAt(text, o) && IsHigh(UnitAt(text, o + 2)) &&
      (!P.At(text, o + 6, "\\u") || (FourHexAt(text, o + 8) && !IsLow(UnitAt(text, o + 8))))
    case _ => false
  }

  lemma BackslashU(text: string, p: nat)
    ensures P.At(text, p, "\\u") <==> Peek(text, p) == '\\' && Peek(text, p + 1) == 'u'
  {
    if p + 2 <= |text| {
      assert text[p..p + 2] == [text[p], text[p + 1]];
    }
  }

  lemma LettersAgree(c: char)
    ensures if Letter(c).Some? then S.Unescaped(c) == Letter(c).value != '\0' else S.Unescaped(c) == '\0'
  {
  }

  lemma BadEscapeIs(text: string, o: nat)
    requires o < |text| && text[o] == '\\' && S.ReadEscape(text, o).BadEscape?
    ensures Fault(text, o, S.ReadEscape(text, o).code)
  {
    hide S.Hex4, Utf8.Encode, FourHex, CodeUnit, S.Unescaped, Letter, P.At;
    LettersAgree(Peek(text, o + 1));
    LettersAgree('\0');
    Hex4Is(text, o + 2);
    Hex4Is(text, o + 8);
    BackslashU(text, o);
    BackslashU(text, o + 6);
    NoLetter();
  }

  lemma NoLetter()
    ensures Letter('\0').None? && Letter('u').None?
  {
  }

  lemma OneFault(text: string, o: nat, c: ErrorCode, d: ErrorCode)
    requires o <= |text| && Fault(text, o, c) && Fault(text, o, d)
    ensures c == d
  {
    hide FourHexAt, UnitAt, P.At;
    BackslashU(text, o);
    BackslashU(text, o + 6);
    NoLetter();
  }

  lemma StoppedByFault(text: string, o: nat, units: string)
    requires o <= |text| && Stops(text, o) && StopResult(text, o, units).StringError?
    ensures StopResult(text, o, units).offset == o && Fault(text, o, StopResult(text, o, units).code)
  {
    hide S.ReadEscape, Fault;
    if Peek(text, o) == '\\' {
      BadEscapeIs(text, o);
    } else {
      PlainFault(text, o);
    }
  }

  lemma PlainFault(text: string, o: nat)
    requires o <= |text| && Peek(text, o) < ' '
    ensures Fault(text, o, if Peek(text, o) == '\0' then StringMissQuotationMark else StringEscapeInvalid)
  {
  }

  /** Everything else is refused where the first character stands that is none of the grammar, with the reason. */
  lemma RefusesTheRest(text: string, p: nat, code: ErrorCode, o: nat)
    requires p < |text| && text[p] == '"'
    ensures S.LexString(text, p) == StringError(code, o) <==>
      o <= |text| && exists items :: AllValid(items) && o == p + 1 + |Spellings(items)| && P.At(text, p + 1, Spellings(items)) && Fault(text, o, code)
  {
    hide S.ReadUnits, P.At, Stops, StopResult, Fault, AllValid, Spellings, Meanings;
    var items, at := ReadItems(text, p + 1, "");
    if S.LexString(text, p).StringError? {
      StoppedByFault(text, at, "" + Meanings(items));
    }
    forall others | o <= |text| && AllValid(others) && o == p + 1 + |Spellings(others)| && P.At(text, p + 1, Spellings(others)) && Fault(text, o, code)
      ensures S.LexString(text, p) == StringError(code, o)
    {
      ItemsRead(text, p + 1, others, "");
      FaultStops(text, o, code, "" + Meanings(others));
    }
  }

  /** At a fault the reader stops, and reports it. */
  lemma FaultStops(text: string, o: nat, code: ErrorCode, acc: string)
    requires o <= |text| && Fault(text, o, code)
    ensures S.ReadUnits(text, o, acc) == StringError(code, o)
  {
    hide S.Hex4, Utf8.Encode, FourHex, CodeUnit, S.Unescaped, Letter, P.At;
    LettersAgree(Peek(text, o + 1));
    LettersAgree('\0');
    LettersAgree('u');
    NoLetter();
    Hex4Is(text, o + 2);
    Hex4Is(text, o + 8);
    BackslashU(text, o);
    BackslashU(text, o + 6);
  }
}
