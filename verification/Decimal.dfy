/** Writing integers in decimal, and the closed form of the round trip. */
module Decimal {
  import opened Options
  import opened Sax
  import opened Scanner
  import opened Dom
  import opened Numbers
  import opened Pretty
  import S = Strings
  import P = PrettyRoundTrip
  import G = RecursiveGrammar
  import A = Automaton

  function DigitChar(d: nat): (c: char)
    requires d < 10
    ensures IsDigit(c) && Digit(c) == d
  {
    '0' + d as char
  }

  /** The shortest decimal digits of `n`. */
  function Digits(n: nat): (ds: string)
    ensures ds != "" && AllDigits(ds)
    ensures ds[0] == '0' <==> n == 0
    ensures n < 10 <==> |ds| == 1
  {
    if n < 10 then [DigitChar(n)] else Digits(n / 10) + [DigitChar(n % 10)]
  }

  lemma {:induction false} ValueOfDigits(n: nat)
    ensures ValueOf(Digits(n)) == n
  {
    var ds := Digits(n);
    if n < 10 {
      assert ds[..0] == "";
    } else {
      ValueOfDigits(n / 10);
      assert ds[..|ds| - 1] == Digits(n / 10);
    }
  }

  /** WriteInt, WriteUint, WriteInt64 and WriteUint64. */
  function WriteInteger(n: int): string {
    if n < 0 then "-" + Digits(-n) else Digits(n)
  }

  /** The scanning of numbers: the integer path, and `lexReal` for whatever leaves it. */
  function LexNumber(nanAndInf: bool, lexReal: (string, nat) -> LexedNumber, text: string, p: nat): LexedNumber {
    if p > |text| then NumberError(ValueInvalid, p)
    else match IntegerLiteral(text, p)
      case Integer(e, q) => NumberAt(e, q)
      case NotInteger(_) => lexReal(text, p)
      case Invalid(at) =>
        if nanAndInf && (Peek(text, at) == 'I' || Peek(text, at) == 'N') then lexReal(text, p)
        else NumberError(ValueInvalid, at)
  }

  lemma DigitsStop(text: string, p: nat, q: nat)
    requires p <= q <= |text| && AllDigits(text[p..q]) && !IsDigit(Peek(text, q))
    ensures DigitsEnd(text, p) == q
    decreases q - p
  {
    if p < q {
      assert text[p..q][0] == text[p] && text[p] in text[p..q];
      assert text[p + 1..q] == text[p..q][1..];
      DigitsStop(text, p + 1, q);
    }
  }

  lemma SplitAt(text: string, p: nat, a: string, b: string)
    requires P.At(text, p, a + b)
    ensures P.At(text, p, a) && P.At(text, p + |a|, b)
  {
    S.AtSplit(text, p, a, b);
  }

  /** The digits of a number are scanned back, whatever ends them. */
  lemma DigitsRoundTrip(text: string, d: nat, v: nat)
    requires P.At(text, d, Digits(v)) && !IsDigit(Peek(text, d + |Digits(v)|))
    ensures IsDigit(Peek(text, d)) && IntegerEnd(text, d) == d + |Digits(v)|
    ensures ValueOf(text[d..d + |Digits(v)|]) == v
  {
    hide ValueOf, DigitsEnd, Digits;
    var ds := Digits(v);
    var q := d + |ds|;
    assert text[d..q] == ds && text[d..q][0] == text[d];
    assert IsDigit(ds[0]);
    ValueOfDigits(v);
    if v != 0 {
      DigitsStop(text, d, q);
    }
  }

  lemma ClassOfWritten(n: int)
    requires -0x8000_0000_0000_0000 <= n < 0x1_0000_0000_0000_0000
    ensures LiteralEvent(n < 0, if n < 0 then -n else n) == P.ReaderEvent(n) && !P.ReaderEvent(n).Double?
  {
  }

  /** A written number is read back exactly, in the class the reader chooses. */
  lemma IntegerRoundTrip(text: string, p: nat, n: int)
    requires -0x8000_0000_0000_0000 <= n < 0x1_0000_0000_0000_0000
    requires P.At(text, p, WriteInteger(n)) && P.Ends(Peek(text, p + |WriteInteger(n)|))
    ensures IntegerLiteral(text, p) == Integer(P.ReaderEvent(n), p + |WriteInteger(n)|)
  {
    hide IntegerLiteral, P.At, P.ReaderEvent;
    if n < 0 { NegativeRoundTrip(text, p, n); } else { NaturalRoundTrip(text, p, n); }
  }

  lemma NaturalRoundTrip(text: string, p: nat, n: nat)
    requires n < 0x1_0000_0000_0000_0000
    requires P.At(text, p, Digits(n)) && P.Ends(Peek(text, p + |Digits(n)|))
    ensures IntegerLiteral(text, p) == Integer(P.ReaderEvent(n), p + |Digits(n)|)
  {
    hide ValueOf, IntegerEnd, Digits, LiteralEvent, P.ReaderEvent, P.At;
    ClassOfWritten(n);
    DigitsRoundTrip(text, p, n);
    assert Peek(text, p) != '-';
  }

  lemma NegativeRoundTrip(text: string, p: nat, n: int)
    requires -0x8000_0000_0000_0000 <= n < 0
    requires P.At(text, p, "-" + Digits(-n)) && P.Ends(Peek(text, p + 1 + |Digits(-n)|))
    ensures IntegerLiteral(text, p) == Integer(P.ReaderEvent(n), p + 1 + |Digits(-n)|)
  {
    hide ValueOf, IntegerEnd, Digits, LiteralEvent, P.ReaderEvent, P.At;
    ClassOfWritten(n);
    SplitAt(text, p, "-", Digits(-n));
    S.PeekAt(text, p, "-");
    assert Peek(text, p + 0) == "-"[0];
    DigitsRoundTrip(text, p + 1, -n);
  }

  /** A tree without doubles, with integers of 64 bits. */
  predicate Exact(v: Value)
    decreases v
  {
    match v
    case VInteger(n) => -0x8000_0000_0000_0000 <= n < 0x1_0000_0000_0000_0000
    case VDouble(_) => false
    case VObject(ms) => forall m | m in ms :: Exact(m.value)
    case VArray(es) => forall e | e in es :: Exact(e)
    case _ => true
  }

  /** PrettyWriter with its base class: any indentation, tokens as WriteString and the integer writers make them. */
  function JsonFormat(indentChar: char, indentCharCount: nat, singleLineArray: bool, writeDouble: Event -> string): Format {
    Format(indentChar, indentCharCount, singleLineArray, S.WriteString,
           (e: Event) => var n := IntegerOf(e); if n.Some? then WriteInteger(n.value) else writeDouble(e))
  }

  /** The reader with its own scanning of strings and integers. A string goes to the handler by way of
    * the stack stream, with `past` behind the stack's end. */
  function JsonSource(text: string, flags: Flags, past: string -> string, lexReal: (string, nat) -> LexedNumber, handler: Handler): Source {
    Source(text, flags, (t: string, p: nat) => S.Deliver(past, S.LexString(t, p)),
           (t: string, p: nat) => LexNumber(flags.nanAndInf, lexReal, t, p), handler)
  }

  /** A handler that never stops the parser. */
  function AcceptAll(): Handler {
    _ => true
  }

  /** What the handler gets of a string. */
  function Got(past: string -> string): string -> string {
    str => S.Handed(past, str)
  }

  ghost predicate RealsProgress(text: string, lexReal: (string, nat) -> LexedNumber) {
    forall p: nat | p < |text| ::
      var l := lexReal(text, p); l.NumberAt? ==> p < l.next <= |text| && IsNumber(l.event)
  }

  lemma JsonSourceIsSound(text: string, flags: Flags, past: string -> string, lexReal: (string, nat) -> LexedNumber, handler: Handler)
    requires RealsProgress(text, lexReal)
    ensures Sound(JsonSource(text, flags, past, lexReal, handler))
  {
    hide ValueOf, DigitsEnd, S.ReadUnits, S.Handed;
  }

  /** The reader and the writer under their own scanning and writing of strings and integers. */
  ghost predicate Concrete(s: Source, f: Format, past: string -> string, lexReal: (string, nat) -> LexedNumber) {
    && f.writeString == S.WriteString
    && (forall t, p :: s.lexString(t, p) == S.Deliver(past, S.LexString(t, p)))
    && (forall n :: f.writeNumber(IntegerEvent(n)) == WriteInteger(n))
    && (forall t, p :: s.lexNumber(t, p) == LexNumber(s.flags.nanAndInf, lexReal, t, p))
  }

  lemma StringsAreFaithful(s: Source, f: Format, past: string -> string, lexReal: (string, nat) -> LexedNumber, str: string)
    requires Concrete(s, f, past, lexReal)
    ensures P.StringFaithful(s, f, Got(past), str)
  {
    hide S.LexString, S.Handed, LexNumber;
    forall p: nat | P.At(s.text, p, S.WriteString(str))
      ensures s.lexString(s.text, p) == StringAt(Got(past)(str), p + |S.WriteString(str)|)
    {
      S.StringRoundTrip(s.text, p, str);
    }
  }

  lemma IntegersAreFaithful(s: Source, f: Format, past: string -> string, lexReal: (string, nat) -> LexedNumber, n: int)
    requires Concrete(s, f, past, lexReal) && -0x8000_0000_0000_0000 <= n < 0x1_0000_0000_0000_0000
    ensures P.NumberFaithful(s, f, IntegerEvent(n))
  {
    hide IntegerLiteral, S.LexString, S.Deliver;
    var w := WriteInteger(n);
    assert f.writeNumber(IntegerEvent(n)) == w;
    assert n >= 0 ==> IsDigit(Digits(n)[0]);
    forall p: nat | P.At(s.text, p, w) && P.Ends(Peek(s.text, p + |w|))
      ensures s.lexNumber(s.text, p) == NumberAt(P.ReadBack(IntegerEvent(n)), p + |w|)
    {
      IntegerRoundTrip(s.text, p, n);
    }
  }

  lemma {:induction false} ExactIsReadable(s: Source, f: Format, past: string -> string, lexReal: (string, nat) -> LexedNumber, v: Value)
    requires Concrete(s, f, past, lexReal) && Exact(v)
    ensures P.Readable(s, f, Got(past), v)
    decreases v
  {
    hide Concrete, P.StringFaithful, P.NumberFaithful;
    match v
    case VInteger(n) => IntegersAreFaithful(s, f, past, lexReal, n);
    case VString(str) => StringsAreFaithful(s, f, past, lexReal, str);
    case VObject(ms) =>
      forall m | m in ms
        ensures P.StringFaithful(s, f, Got(past), m.name) && P.Readable(s, f, Got(past), m.value)
      {
        StringsAreFaithful(s, f, past, lexReal, m.name);
        ExactIsReadable(s, f, past, lexReal, m.value);
      }
    case VArray(es) =>
      forall e | e in es
        ensures P.Readable(s, f, Got(past), e)
      {
        ExactIsReadable(s, f, past, lexReal, e);
      }
    case _ =>
  }

  // ---- The whole circle

  /** The event's string or name, if it has one, meets a condition. */
  predicate OfString(c: string -> bool, e: Event) {
    (e.String? ==> c(e.s)) && (e.Key? ==> c(e.k))
  }

  /** Every string and name of the tree meets a condition. */
  predicate Strings(v: Value, c: string -> bool) { P.Everywhere(v, e => OfString(c, e)) }

  lemma {:induction false} StringsSame(v: Value, c: string -> bool, d: string -> bool)
    requires forall s :: c(s) ==> d(s)
    ensures Strings(v, c) ==> Strings(v, d)
    decreases v
  {
    match v
    case VObject(ms) => forall m | m in ms ensures Strings(m.value, c) ==> Strings(m.value, d) { StringsSame(m.value, c, d); }
    case VArray(es) => forall e | e in es ensures Strings(e, c) ==> Strings(e, d) { StringsSame(e, c, d); }
    case _ =>
  }

  /** A string that is handed over whole: its units and the terminator are fewer than 2^32, or what lies
    * past one of exactly 2^32 - 1 units is its copy. */
  function Whole(past: string -> string): string -> bool {
    s => S.Countable(s) || (S.StreamLength(s) == 0 && past(s) == s)
  }

  lemma StringsKeptIff(past: string -> string, v: Value)
    ensures P.StringsKept(Got(past), v) <==> Strings(v, Whole(past))
  {
    var kept: string -> bool := s => S.Handed(past, s) == s;
    KeptStrings(past, v);
    forall s ensures kept(s) <==> Whole(past)(s) { S.HandedWholeIff(past, s); }
    StringsSame(v, kept, Whole(past));
    StringsSame(v, Whole(past), kept);
  }

  lemma {:induction false} KeptStrings(past: string -> string, v: Value)
    ensures P.StringsKept(Got(past), v) <==> Strings(v, s => S.Handed(past, s) == s)
    decreases v
  {
    hide S.Handed;
    match v
    case VObject(ms) => forall m | m in ms ensures P.StringsKept(Got(past), m.value) <==> Strings(m.value, s => S.Handed(past, s) == s) { KeptStrings(past, m.value); }
    case VArray(es) => forall e | e in es ensures P.StringsKept(Got(past), e) <==> Strings(e, s => S.Handed(past, s) == s) { KeptStrings(past, e); }
    case _ =>
  }

  /** What comes out on a stream that has only the room that the writer reserves, or one that makes
    * room for every character; nothing when a string runs past the room reserved for it. */
  function Written(f: Format, v: Value, onlyReserved: bool): Option<string> {
    if onlyReserved && !Strings(v, S.Roomy) then None else Some(Print(f, v))
  }

  /** What the document's builder holds after the text has been read back. */
  function Circle(f: Format, v: Value, onlyReserved: bool, flags: Flags, past: string -> string,
                  lexReal: (string, nat) -> LexedNumber): Option<seq<Value>>
    requires RealsProgress(Print(f, v), lexReal)
  {
    match Written(f, v, onlyReserved)
    case None => None
    case Some(text) =>
      JsonSourceIsSound(text, flags, past, lexReal, AcceptAll());
      match G.Parse(JsonSource(text, flags, past, lexReal, AcceptAll()))
      case Ok(_, ev) => Replay([], ev)
      case Fail(_, _, _) => None
  }

  /**
   * Reading what was printed, for every tree without doubles and every formatting: the parser reads the text to its
   * end, and the events rebuild exactly the tree that was written if and only if no container has 2^32 entries or more
   * and every string reaches the handler whole. The iterative parser keeps its frames on the stack that strings are
   * scanned to, and does the same when every string is taken off it whole.
   */
  lemma DocumentRoundTrip(v: Value, indentChar: char, indentCharCount: nat, singleLineArray: bool,
                          writeDouble: Event -> string, flags: Flags, past: string -> string,
                          lexReal: (string, nat) -> LexedNumber)
    requires Exact(v) && IsBlank(indentChar)
    requires RealsProgress(Print(JsonFormat(indentChar, indentCharCount, singleLineArray, writeDouble), v), lexReal)
    ensures var text := Print(JsonFormat(indentChar, indentCharCount, singleLineArray, writeDouble), v);
            var s := JsonSource(text, flags, past, lexReal, AcceptAll());
            var back := P.Reread(Events(P.Relayed(Got(past), v)));
            Sound(s) && G.Parse(s) == Ok(|text|, back)
                     && (Strings(v, S.Countable) ==> A.IterativeParse(s) == G.Parse(s))
                     && (Replay([], back) == Some([v]) <==> P.Small(v) && P.StringsKept(Got(past), v))
  {
    hide Print, LexNumber, S.LexString, S.Handed, G.Parse, A.IterativeParse, Events, Replay, P.Readable, P.StringsKept, Got, P.Relayed, Strings;
    var f := JsonFormat(indentChar, indentCharCount, singleLineArray, writeDouble);
    var text := Print(f, v);
    var s := JsonSource(text, flags, past, lexReal, AcceptAll());
    JsonSourceIsSound(text, flags, past, lexReal, AcceptAll());
    forall n
      ensures f.writeNumber(IntegerEvent(n)) == WriteInteger(n)
    {
      assert IntegerOf(IntegerEvent(n)) == Some(n);
    }
    ExactIsReadable(s, f, past, lexReal, v);
    P.PrettyRoundTrip(s, f, Got(past), v);
  }

  /**
   * Printing, reading and rebuilding gives back exactly the tree if and only if every string finds its room, no
   * container has 2^32 entries or more, and every string is handed over whole.
   */
  lemma CircleIff(v: Value, indentChar: char, indentCharCount: nat, singleLineArray: bool, onlyReserved: bool,
                  writeDouble: Event -> string, flags: Flags, past: string -> string, lexReal: (string, nat) -> LexedNumber)
    requires Exact(v) && IsBlank(indentChar)
    requires RealsProgress(Print(JsonFormat(indentChar, indentCharCount, singleLineArray, writeDouble), v), lexReal)
    ensures Circle(JsonFormat(indentChar, indentCharCount, singleLineArray, writeDouble), v, onlyReserved, flags, past, lexReal) == Some([v])
      <==> (onlyReserved ==> Strings(v, S.Roomy)) && P.Small(v) && Strings(v, Whole(past))
  {
    hide Strings, Print, S.Roomy, G.Parse, Replay, JsonSource, Events, P.Relayed, P.Reread, P.Small, P.StringsKept, Whole;
    DocumentRoundTrip(v, indentChar, indentCharCount, singleLineArray, writeDouble, flags, past, lexReal);
    StringsKeptIff(past, v);
  }

  /** Strings below 715827883 units, in containers below 2^32 entries, always come back. */
  lemma ShortStringsComeBack(v: Value, past: string -> string)
    requires Strings(v, S.Short)
    ensures Strings(v, S.Roomy) && Strings(v, Whole(past))
  {
    hide Strings;
    forall s | S.Short(s) ensures S.Roomy(s) && S.Countable(s) { S.ShortIsRoomy(s); }
    StringsSame(v, S.Short, S.Roomy);
    StringsSame(v, S.Short, Whole(past));
  }
}
