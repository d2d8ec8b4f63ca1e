/** Writing a string as a JSON token and scanning it back, code unit by code unit. */
module Strings {
  import opened Machine
  import opened Sax
  import opened Scanner
  import Utf8
  import P = PrettyRoundTrip

  const HEX_DIGITS := "0123456789ABCDEF"
  const BACKSPACE: char := 8 as char
  const FORM_FEED: char := 12 as char

  /** The escape table of the writer: nothing for a code unit that is copied. */
  function WriteUnit(c: char): (w: string)
    ensures w != ""
  {
    if c == '"' then "\\\""
    else if c == '\\' then "\\\\"
    else if c == BACKSPACE then "\\b"
    else if c == '\t' then "\\t"
    else if c == '\n' then "\\n"
    else if c == FORM_FEED then "\\f"
    else if c == '\r' then "\\r"
    else if c < ' ' then "\\u00" + [HEX_DIGITS[c as int / 16], HEX_DIGITS[c as int % 16]]
    else [c]
  }

  function WriteUnits(s: string): string {
    if s == "" then "" else WriteUnit(s[0]) + WriteUnits(s[1..])
  }

  /** WriteString. */
  function WriteString(s: string): string {
    "\"" + (WriteUnits(s) + "\"")
  }

  function HexValue(c: char): (h: int)
    ensures -1 <= h < 16
  {
    if '0' <= c <= '9' then c as int - '0' as int
    else if 'A' <= c <= 'F' then c as int - 'A' as int + 10
    else if 'a' <= c <= 'f' then c as int - 'a' as int + 10
    else -1
  }

  /** ParseHex4: the value of four hexadecimal digits, or -1. */
  function Hex4(text: string, p: nat): (h: int)
    ensures -1 <= h < 0x1_0000 && (h >= 0 ==> p + 4 <= |text|)
  {
    var a, b, c, d := HexValue(Peek(text, p)), HexValue(Peek(text, p + 1)), HexValue(Peek(text, p + 2)), HexValue(Peek(text, p + 3));
    if a < 0 || b < 0 || c < 0 || d < 0 then -1 else ((a * 16 + b) * 16 + c) * 16 + d
  }

  /** The escape table of the reader, for the character after a backslash; NUL when it has no entry. */
  function Unescaped(e: char): char {
    match e
    case '"' => '"'
    case '/' => '/'
    case '\\' => '\\'
    case 'b' => BACKSPACE
    case 'f' => FORM_FEED
    case 'n' => '\n'
    case 'r' => '\r'
    case 't' => '\t'
    case _ => '\0'
  }

  function Units(u: seq<Utf8.byte>): (s: string)
    ensures |s| == |u| && forall i :: 0 <= i < |u| ==> s[i] == u[i] as char
  {
    if u == [] then "" else [u[0] as char] + Units(u[1..])
  }

  datatype Escape = Escape(units: string, next: nat) | BadEscape(code: ErrorCode)

  /** One escape sequence, whose backslash is at `p`. */
  function ReadEscape(text: string, p: nat): (r: Escape)
    requires p < |text|
    ensures r.Escape? ==> p < r.next <= |text|
  {
    var e := Peek(text, p + 1);
    if Unescaped(e) != '\0' then Escape([Unescaped(e)], p + 2)
    else if e != 'u' then BadEscape(StringEscapeInvalid)
    else
      var cp := Hex4(text, p + 2);
      if cp < 0 then BadEscape(StringUnicodeEscapeInvalidHex)
      else if 0xD800 <= cp <= 0xDBFF then
        if Peek(text, p + 6) != '\\' || Peek(text, p + 7) != 'u' then BadEscape(StringUnicodeSurrogateInvalid)
        else
          var trail := Hex4(text, p + 8);
          if trail < 0 then BadEscape(StringUnicodeEscapeInvalidHex)
          else if trail < 0xDC00 || trail > 0xDFFF then BadEscape(StringUnicodeSurrogateInvalid)
          else Escape(Units(Utf8.Encode((cp - 0xD800) * 0x400 + (trail - 0xDC00) + 0x10000)), p + 12)
      else Escape(Units(Utf8.Encode(cp)), p + 6)
  }

  /** The loop of ParseStringToStream, with `acc` already put to the output. */
  function ReadUnits(text: string, p: nat, acc: string): (r: LexedString)
    requires p <= |text|
    ensures r.StringAt? ==> p < r.next <= |text|
    decreases |text| - p
  {
    var c := Peek(text, p);
    if c == '\\' then
      match ReadEscape(text, p)
      case Escape(units, next) => ReadUnits(text, next, acc + units)
      case BadEscape(code) => StringError(code, p)
    else if c == '"' then StringAt(acc, p + 1)
    else if c == '\0' then StringError(StringMissQuotationMark, p)
    else if c < ' ' then StringError(StringEscapeInvalid, p)
    else ReadUnits(text, p + 1, acc + [c])
  }

  /** ParseString, entered at the opening quotation mark. */
  function LexString(text: string, p: nat): (r: LexedString)
    ensures r.StringAt? ==> p < r.next <= |text|
  {
    if p < |text| then ReadUnits(text, p + 1, "") else StringError(StringMissQuotationMark, p)
  }

  // ---- Handing a string over

  /** What the 32-bit length of the stack stream is after the units of a string and the terminating NUL. */
  function StreamLength(units: string): (length: nat)
    ensures length < SIZE_MODULUS
  {
    (|units| + 1) % SIZE_MODULUS
  }

  /**
   * What the handler gets of the units put to the stack stream: `Pop` takes as many as the stream has
   * counted, and the handler is told of one unit less, the terminator. With a count of 0 it is told
   * of 2^32 - 1 units, and `past` is what lies there, past the end of the string.
   */
  function Handed(past: string -> string, units: string): string {
    var length := StreamLength(units);
    if length == 0 then past(units) else units[|units| + 1 - length..]
  }

  /** What stays behind on the stack. */
  function Remainder(units: string): string {
    (units + "\0")[..|units| + 1 - StreamLength(units)]
  }

  /** Short enough for its units and the terminator to be counted. */
  predicate Countable(units: string) { |units| + 1 < SIZE_MODULUS }

  /** A string is handed over whole exactly when the count does not wrap, except that what lies past
    * a string of 2^32 - 1 units might be its copy; and exactly then the stack is left as it was. */
  lemma HandedWholeIff(past: string -> string, units: string)
    ensures Handed(past, units) == units <==> Countable(units) || (StreamLength(units) == 0 && past(units) == units)
    ensures Remainder(units) == "" <==> Countable(units)
  {
    if Countable(units) {
      assert units[0..] == units;
    } else {
      assert StreamLength(units) <= |units|;
      if StreamLength(units) > 0 { assert |Handed(past, units)| < |units|; }
    }
  }

  /** Of a string of 2^32 - 1 units nothing is taken, and everything stays on the stack. */
  lemma LongestWraps(past: string -> string, units: string)
    requires |units| == SIZE_MODULUS - 1
    ensures Handed(past, units) == past(units) && Remainder(units) == units + "\0"
  {
  }

  /** What the handler gets of a string that was scanned. */
  function Deliver(past: string -> string, l: LexedString): LexedString {
    match l
    case StringAt(units, next) => StringAt(Handed(past, units), next)
    case StringError(_, _) => l
  }

  lemma Counted(n: nat, k: nat)
    ensures (n % SIZE_MODULUS + k) % SIZE_MODULUS == (n + k) % SIZE_MODULUS
  {
  }

  lemma HandedFrom(below: string, units: string, length: nat, past: string -> string)
    requires length == (|units| + 1) % SIZE_MODULUS
    ensures var stack := below + units + "\0";
      && length <= |stack|
      && stack[..|stack| - length] == below + Remainder(units)
      && Handed(past, units) ==
           if length == 0 then past(stack[|below|..|stack| - 1]) else stack[|stack| - length..|stack| - 1]
  {
    var stack := below + units + "\0";
    assert stack == below + (units + "\0");
    assert stack[|below|..|stack| - 1] == units;
    if length != 0 {
      assert stack[|stack| - length..|stack| - 1] == units[|units| + 1 - length..];
    }
  }

  /** ParseString as the code runs it, on top of a stack that others use too. */
  method ParseString(text: string, p: nat, below: string, past: string -> string) returns (r: LexedString, stack: string)
    requires p < |text|
    ensures r == Deliver(past, LexString(text, p))
    ensures r.StringAt? ==> stack == below + Remainder(LexString(text, p).s)
  {
    hide ReadEscape, Handed, Remainder;
    var at, length := p + 1, 0;
    stack := below;
    ghost var units := "";
    while true
      invariant p < at <= |text| && ReadUnits(text, at, units) == LexString(text, p)
      invariant stack == below + units && length == |units| % SIZE_MODULUS
      decreases |text| - at
    {
      var c := Peek(text, at);
      if c == '\\' {
        var e := ReadEscape(text, at);
        if e.BadEscape? { return StringError(e.code, at), stack; }
        Counted(|units|, |e.units|);
        stack, length, at := stack + e.units, (length + |e.units|) % SIZE_MODULUS, e.next;
        units := units + e.units;
      } else if c == '"' {
        Counted(|units|, 1);
        stack, length := stack + "\0", (length + 1) % SIZE_MODULUS;
        HandedFrom(below, units, length, past);
        var str := if length == 0 then past(stack[|below|..|stack| - 1]) else stack[|stack| - length..|stack| - 1];
        return StringAt(str, at + 1), stack[..|stack| - length];
      } else if c == '\0' {
        return StringError(StringMissQuotationMark, at), stack;
      } else if c < ' ' {
        return StringError(StringEscapeInvalid, at), stack;
      } else {
        Counted(|units|, 1);
        stack, length, at := stack + [c], (length + 1) % SIZE_MODULUS, at + 1;
        units := units + [c];
      }
    }
  }

  lemma AtSplit(text: string, p: nat, a: string, b: string)
    requires P.At(text, p, a + b)
    ensures P.At(text, p, a) && P.At(text, p + |a|, b)
  {
    var w := text[p..p + |a + b|];
    assert w[..|a|] == a && w[|a|..] == b;
    assert text[p..p + |a|] == w[..|a|];
    assert text[p + |a|..p + |a| + |b|] == w[|a|..];
  }

  /** Scanning undoes the writing of one code unit. */
  lemma ReadWrittenUnit(text: string, p: nat, c: char, acc: string)
    requires P.At(text, p, WriteUnit(c))
    ensures ReadUnits(text, p, acc) == ReadUnits(text, p + |WriteUnit(c)|, acc + [c])
  {
    hide WriteUnit, ReadEscape;
    PeekAt(text, p, WriteUnit(c));
    if c < ' ' || c == '"' || c == '\\' {
      ReadWrittenEscape(text, p, c);
    } else {
      UnitCopied(c);
    }
  }

  lemma UnitCopied(c: char)
    requires !(c < ' ' || c == '"' || c == '\\')
    ensures WriteUnit(c) == [c]
  {
  }

  lemma PeekAt(text: string, p: nat, w: string)
    requires P.At(text, p, w)
    ensures forall i {:trigger w[i]} :: 0 <= i < |w| ==> Peek(text, p + i) == w[i]
  {
    forall i | 0 <= i < |w|
      ensures Peek(text, p + i) == w[i]
    {
      assert text[p..p + |w|][i] == text[p + i];
    }
  }

  lemma ReadWrittenEscape(text: string, p: nat, c: char)
    requires P.At(text, p, WriteUnit(c)) && (c < ' ' || c == '"' || c == '\\')
    ensures Peek(text, p) == '\\' && ReadEscape(text, p) == Escape([c], p + |WriteUnit(c)|)
  {
    hide Utf8.Encode, Hex4;
    var w := WriteUnit(c);
    PeekAt(text, p, w);
    assert w[0] == '\\' && w[1] == Peek(text, p + 1);
    if w[1] == 'u' {
      HexOfWritten(text, p, c);
    }
  }

  lemma HexOfWritten(text: string, p: nat, c: char)
    requires c < ' ' && P.At(text, p, "\\u00" + [HEX_DIGITS[c as int / 16], HEX_DIGITS[c as int % 16]])
    ensures Hex4(text, p + 2) == c as int && Units(Utf8.Encode(c as int)) == [c]
  {
    var w := "\\u00" + [HEX_DIGITS[c as int / 16], HEX_DIGITS[c as int % 16]];
    PeekAt(text, p, w);
    HexDigits(c as int / 16);
    HexDigits(c as int % 16);
    assert w[2] == w[3] == '0';
    assert Peek(text, p + 4) == w[4] && Peek(text, p + 5) == w[5];
  }

  lemma HexDigits(d: int)
    requires 0 <= d < 16
    ensures HexValue(HEX_DIGITS[d]) == d
  {
  }

  lemma {:induction false} ReadWrittenUnits(text: string, p: nat, s: string, acc: string)
    requires P.At(text, p, WriteUnits(s) + "\"")
    ensures ReadUnits(text, p, acc) == StringAt(acc + s, p + |WriteUnits(s)| + 1)
    decreases |s|
  {
    hide WriteUnit, ReadEscape;
    if s == "" {
      assert text[p..p + 1][0] == '"';
      assert acc + s == acc;
    } else {
      var w, rest := WriteUnit(s[0]), WriteUnits(s[1..]);
      assert WriteUnits(s) + "\"" == w + (rest + "\"");
      AtSplit(text, p, w, rest + "\"");
      ReadWrittenUnit(text, p, s[0], acc);
      ReadWrittenUnits(text, p + |w|, s[1..], acc + [s[0]]);
      assert acc + [s[0]] + s[1..] == acc + s;
    }
  }

  /** A written string is scanned back, wherever it stands. */
  lemma StringRoundTrip(text: string, p: nat, s: string)
    requires P.At(text, p, WriteString(s))
    ensures LexString(text, p) == StringAt(s, p + |WriteString(s)|)
  {
    AtSplit(text, p, "\"", WriteUnits(s) + "\"");
    ReadWrittenUnits(text, p + 1, s, "");
    assert "" + s == s;
  }

  // ---- Room for a written string

  /** What the writer reserves for a string of `n` units, in 32-bit arithmetic. */
  function Reserved(n: nat): nat { (2 + 6 * n) % SIZE_MODULUS }

  lemma UnitLength(c: char)
    ensures 1 <= |WriteUnit(c)| <= 6
    ensures c == '\U{1}' ==> |WriteUnit(c)| == 6
  {
  }

  lemma {:induction false} UnitsLength(s: string)
    ensures |s| <= |WriteUnits(s)| <= 6 * |s|
    ensures (forall c | c in s :: c == '\U{1}') ==> |WriteUnits(s)| == 6 * |s|
    decreases |s|
  {
    hide WriteUnit;
    if s != "" {
      UnitLength(s[0]);
      UnitsLength(s[1..]);
      assert forall c | c in s[1..] :: c in s;
      assert s[0] in s;
    }
  }

  /** A string that finds its room in what is reserved for it. */
  predicate Roomy(s: string) { |WriteString(s)| <= Reserved(|s|) }

  /** A string for which the reservation does not wrap. */
  predicate Short(s: string) { 2 + 6 * |s| < SIZE_MODULUS }

  lemma ShortIsRoomy(s: string)
    requires Short(s)
    ensures Roomy(s) && Countable(s)
  {
    hide WriteUnits;
    UnitsLength(s);
  }

  /** What is reserved is enough for every string of a length exactly when the length is below
    * 715827883: otherwise the product wraps, and the string of control characters needs more. */
  lemma ReservationCoversIff(n: nat)
    ensures (forall s: string | |s| == n :: Roomy(s)) <==> 2 + 6 * n < SIZE_MODULUS
  {
    hide WriteUnits;
    forall s: string | |s| == n && Short(s) ensures Roomy(s) { ShortIsRoomy(s); }
    var controls := seq(n, _ => '\U{1}');
    UnitsLength(controls);
    assert |controls| == n && |WriteString(controls)| == 2 + 6 * n;
    assert 2 + 6 * n >= SIZE_MODULUS ==> !Roomy(controls);
  }
}
