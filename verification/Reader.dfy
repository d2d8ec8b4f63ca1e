/** The integer type that counts members and elements. */
module Machine {
  /** SizeType is a 32-bit unsigned integer. */
  const SIZE_MODULUS := 0x1_0000_0000

  function Increment(c: nat): (r: nat)
    ensures c + 1 < SIZE_MODULUS ==> r == c + 1
  {
    (c + 1) % SIZE_MODULUS
  }

  /** Counting on from a count that may have wrapped. */
  lemma CountOn(c: nat, n: nat)
    ensures (Increment(c) + n) % SIZE_MODULUS == (c + 1 + n) % SIZE_MODULUS
  {
  }
}

/** SAX events, the handler that receives them and the outcome of a parse. */
module Sax {
  datatype Event =
    | Null
    | Bool(b: bool)
    | Int(i: int)
    | Uint(u: int)
    | Int64(i64: int)
    | Uint64(u64: int)
    | Double(d: real)
    | RawNumber(raw: string)
    | String(s: string)
    | StartObject
    | Key(k: string)
    | EndObject(memberCount: nat)
    | StartArray
    | EndArray(elementCount: nat)

  /** An event that neither opens nor closes a container. */
  predicate IsScalar(e: Event) { !e.StartObject? && !e.EndObject? && !e.StartArray? && !e.EndArray? }

  /** A deterministic handler: given everything it has received, whether it accepts the last event. */
  type Handler = seq<Event> -> bool

  datatype ErrorCode =
    | DocumentEmpty
    | DocumentRootNotSingular
    | ValueInvalid
    | ObjectMissName
    | ObjectMissColon
    | ObjectMissCommaOrCurlyBracket
    | ArrayMissCommaOrSquareBracket
    | Termination
    | UnspecificSyntaxError
    | StringUnicodeEscapeInvalidHex
    | StringUnicodeSurrogateInvalid
    | StringEscapeInvalid
    | StringMissQuotationMark
    | StringInvalidEncoding
    | NumberTooBig
    | NumberMissFraction
    | NumberMissExponent

  /** Where a parse stands: still good at `pos`, or stopped with an error; either way with the events sent. */
  datatype Outcome =
    | Ok(pos: nat, events: seq<Event>)
    | Fail(code: ErrorCode, offset: nat, events: seq<Event>)
  {
    predicate IsFailure() {
      Fail?
    }
    function PropagateFailure(): Outcome
      requires Fail?
    {
      this
    }
    function Extract(): (nat, seq<Event>)
      requires Ok?
    {
      (pos, events)
    }
  }
}

/** The input stream, blanks and comments, and the scanning of scalars. */
module Scanner {
  import opened Sax

  /** The parse flags that change control flow outside string and number scanning. */
  datatype Flags = Flags(comments: bool, trailingCommas: bool, stopWhenDone: bool, nanAndInf: bool)

  datatype LexedString = StringAt(s: string, next: nat) | StringError(code: ErrorCode, offset: nat)
  datatype LexedNumber = NumberAt(event: Event, next: nat) | NumberError(code: ErrorCode, offset: nat)

  /** One call of Parse: the text, the flags, the scanning code shared by both parsers, and the handler. */
  datatype Source = Source(
    text: string,
    flags: Flags,
    lexString: (string, nat) -> LexedString,
    lexNumber: (string, nat) -> LexedNumber,
    handler: Handler)

  predicate IsNumber(e: Event) {
    e.Int? || e.Uint? || e.Int64? || e.Uint64? || e.Double? || e.RawNumber?
  }

  /** Scanning a string or a number consumes input and stays inside the text. */
  ghost predicate Sound(s: Source) {
    forall p: nat | p < |s.text| ::
      && (var l := s.lexString(s.text, p); l.StringAt? ==> p < l.next <= |s.text|)
      && (var l := s.lexNumber(s.text, p); l.NumberAt? ==> p < l.next <= |s.text| && IsNumber(l.event))
  }

  /** A stream reads as NUL at its end. */
  function Peek(text: string, p: nat): (c: char)
    ensures c != '\0' ==> p < |text| && text[p] == c
  {
    if p < |text| then text[p] else '\0'
  }

  predicate IsBlank(c: char) {
    c == ' ' || c == '\n' || c == '\r' || c == '\t'
  }

  function SkipBlanks(text: string, p: nat): (r: nat)
    requires p <= |text|
    ensures p <= r <= |text| && !IsBlank(Peek(text, r))
    ensures forall k :: p <= k < r ==> IsBlank(text[k])
    decreases |text| - p
  {
    if IsBlank(Peek(text, p)) then SkipBlanks(text, p + 1) else p
  }

  datatype Skipped = At(pos: nat) | SkipError(offset: nat)

  /** Just after the closing of a block comment whose body starts at `p`. */
  function BlockCommentEnd(text: string, p: nat): (r: Skipped)
    requires p <= |text|
    ensures r.At? ==> p < r.pos <= |text|
    decreases |text| - p
  {
    if Peek(text, p) == '\0' then SkipError(p)
    else if text[p] == '*' then
      if Peek(text, p + 1) == '/' then At(p + 2) else BlockCommentEnd(text, p + 1)
    else BlockCommentEnd(text, p + 1)
  }

  function LineCommentEnd(text: string, p: nat): (r: nat)
    requires p <= |text|
    ensures p <= r <= |text|
    decreases |text| - p
  {
    if Peek(text, p) == '\0' then p
    else if text[p] == '\n' then p + 1
    else LineCommentEnd(text, p + 1)
  }

  function SkipComments(text: string, p: nat): (r: Skipped)
    requires p <= |text|
    ensures r.At? ==> p <= r.pos <= |text|
    decreases |text| - p
  {
    if Peek(text, p) != '/' then At(p)
    else if Peek(text, p + 1) == '*' then
      var r := BlockCommentEnd(text, p + 2);
      if r.SkipError? then r else SkipComments(text, SkipBlanks(text, r.pos))
    else if Peek(text, p + 1) == '/' then
      SkipComments(text, SkipBlanks(text, LineCommentEnd(text, p + 2)))
    else SkipError(p + 1)
  }

  /** SkipWhitespaceAndComments. */
  function Skip(s: Source, p: nat, ev: seq<Event>): (r: Outcome)
    requires p <= |s.text|
    ensures r.Ok? ==> p <= r.pos <= |s.text| && r.events == ev
  {
    var q := SkipBlanks(s.text, p);
    if !s.flags.comments then Ok(q, ev)
    else match SkipComments(s.text, q)
      case At(r) => Ok(r, ev)
      case SkipError(o) => Fail(UnspecificSyntaxError, o, ev)
  }

  /** Deliver one event; a refusal is reported at `offset`. */
  function Send(s: Source, e: Event, next: nat, offset: nat, ev: seq<Event>): (r: Outcome) {
    if s.handler(ev + [e]) then Ok(next, ev + [e]) else Fail(Termination, offset, ev + [e])
  }

  function ParseString(s: Source, p: nat, isKey: bool, ev: seq<Event>): (r: Outcome)
    requires Sound(s) && p < |s.text|
    ensures r.Ok? ==> p < r.pos <= |s.text|
  {
    match s.lexString(s.text, p)
    case StringAt(str, next) => Send(s, if isKey then Key(str) else String(str), next, next, ev)
    case StringError(c, o) => Fail(c, o, ev)
  }

  /** How many characters of `rest` are matched from `p` by successive Consume calls. */
  function Matched(text: string, p: nat, rest: string): (n: nat)
    ensures n <= |rest|
    ensures p + n <= |text| || n == 0
    ensures n == |rest| && n > 0 && '\0' !in rest ==> text[p..p + n] == rest
    decreases |rest|
  {
    if |rest| > 0 && rest[0] != '\0' && Peek(text, p) == rest[0] then 1 + Matched(text, p + 1, rest[1..]) else 0
  }

  /** ParseNull, ParseTrue, ParseFalse: the first character is known to match. */
  function ParseLiteral(s: Source, p: nat, word: string, e: Event, ev: seq<Event>): (r: Outcome)
    requires p < |s.text| && |word| > 0
    ensures r.Ok? ==> p < r.pos <= |s.text|
  {
    var n := Matched(s.text, p + 1, word[1..]);
    if n == |word| - 1 then Send(s, e, p + 1 + n, p + 1 + n, ev) else Fail(ValueInvalid, p + 1 + n, ev)
  }

  predicate StartsNumber(s: Source, c: char) {
    c == '-' || '0' <= c <= '9' || (s.flags.nanAndInf && (c == 'I' || c == 'N'))
  }

  function ParseNumber(s: Source, p: nat, ev: seq<Event>): (r: Outcome)
    requires Sound(s) && p <= |s.text|
    ensures r.Ok? ==> p < r.pos <= |s.text|
  {
    if p < |s.text| && StartsNumber(s, s.text[p]) then
      match s.lexNumber(s.text, p)
      case NumberAt(e, next) => Send(s, e, next, p, ev)
      case NumberError(c, o) => Fail(c, o, ev)
    else Fail(ValueInvalid, p, ev)
  }

  /** The cases of ParseValue that are not compound. */
  function ParseScalar(s: Source, p: nat, ev: seq<Event>): (r: Outcome)
    requires Sound(s) && p <= |s.text|
    ensures r.Ok? ==> p < r.pos <= |s.text|
  {
    var c := Peek(s.text, p);
    if c == 'n' then ParseLiteral(s, p, "null", Null, ev)
    else if c == 't' then ParseLiteral(s, p, "true", Bool(true), ev)
    else if c == 'f' then ParseLiteral(s, p, "false", Bool(false), ev)
    else if c == '"' then ParseString(s, p, false, ev)
    else ParseNumber(s, p, ev)
  }
}

/** The recursive descent parser, as functions from a position and a history to an outcome. */
module RecursiveGrammar {
  import opened Machine
  import opened Sax
  import opened Scanner

  function ParseValue(s: Source, p: nat, ev: seq<Event>): (r: Outcome)
    requires Sound(s) && p <= |s.text|
    ensures r.Ok? ==> p < r.pos <= |s.text|
    decreases |s.text| - p, 2
  {
    var c := Peek(s.text, p);
    if c == '{' then ParseObject(s, p, ev)
    else if c == '[' then ParseArray(s, p, ev)
    else ParseScalar(s, p, ev)
  }

  function ParseObject(s: Source, p: nat, ev: seq<Event>): (r: Outcome)
    requires Sound(s) && p < |s.text|
    ensures r.Ok? ==> p < r.pos <= |s.text|
    decreases |s.text| - p, 1
  {
    var (p1, ev1) :- Send(s, StartObject, p + 1, p + 1, ev);
    var (q, _) :- Skip(s, p1, ev1);
    if Peek(s.text, q) == '}' then Send(s, EndObject(0), q + 1, q + 1, ev1)
    else ParseMembers(s, q, 0, ev1)
  }

  /** The loop of ParseObject, entered at a member name with `count` members behind it. */
  function ParseMembers(s: Source, p: nat, count: nat, ev: seq<Event>): (r: Outcome)
    requires Sound(s) && p <= |s.text|
    ensures r.Ok? ==> p < r.pos <= |s.text|
    decreases |s.text| - p, 0
  {
    if Peek(s.text, p) != '"' then Fail(ObjectMissName, p, ev)
    else
      var (p1, ev1) :- ParseString(s, p, true, ev);
      var (p2, _) :- Skip(s, p1, ev1);
      AfterKey(s, p2, count, ev1)
  }

  /** The body of that loop from the colon on. */
  function AfterKey(s: Source, p: nat, count: nat, ev: seq<Event>): (r: Outcome)
    requires Sound(s) && p <= |s.text|
    ensures r.Ok? ==> p < r.pos <= |s.text|
    decreases |s.text| - p, 0
  {
    if Peek(s.text, p) != ':' then Fail(ObjectMissColon, p, ev)
    else
      var (p1, _) :- Skip(s, p + 1, ev);
      var (p2, ev2) :- ParseValue(s, p1, ev);
      AfterMember(s, p2, count, ev2)
  }

  /** The body of that loop from the end of the value on. */
  function AfterMember(s: Source, p: nat, count: nat, ev: seq<Event>): (r: Outcome)
    requires Sound(s) && p <= |s.text|
    ensures r.Ok? ==> p < r.pos <= |s.text|
    decreases |s.text| - p, 0
  {
    var (p1, _) :- Skip(s, p, ev);
    var c := Peek(s.text, p1);
    if c == '}' then Send(s, EndObject(Increment(count)), p1 + 1, p1 + 1, ev)
    else if c != ',' then Fail(ObjectMissCommaOrCurlyBracket, p1, ev)
    else
      var (p2, _) :- Skip(s, p1 + 1, ev);
      if s.flags.trailingCommas && Peek(s.text, p2) == '}' then
        Send(s, EndObject(Increment(count)), p2 + 1, p2, ev)
      else ParseMembers(s, p2, Increment(count), ev)
  }

  function ParseArray(s: Source, p: nat, ev: seq<Event>): (r: Outcome)
    requires Sound(s) && p < |s.text|
    ensures r.Ok? ==> p < r.pos <= |s.text|
    decreases |s.text| - p, 1
  {
    var (p1, ev1) :- Send(s, StartArray, p + 1, p + 1, ev);
    var (q, _) :- Skip(s, p1, ev1);
    if Peek(s.text, q) == ']' then Send(s, EndArray(0), q + 1, q + 1, ev1)
    else ParseElements(s, q, 0, ev1)
  }

  /** The loop of ParseArray, entered at an element with `count` elements behind it. */
  function ParseElements(s: Source, p: nat, count: nat, ev: seq<Event>): (r: Outcome)
    requires Sound(s) && p <= |s.text|
    ensures r.Ok? ==> p < r.pos <= |s.text|
    decreases |s.text| - p, 3
  {
    var (p1, ev1) :- ParseValue(s, p, ev);
    AfterElement(s, p1, count, ev1)
  }

  /** The body of that loop from the end of the element on. */
  function AfterElement(s: Source, p: nat, count: nat, ev: seq<Event>): (r: Outcome)
    requires Sound(s) && p <= |s.text|
    ensures r.Ok? ==> p < r.pos <= |s.text|
    decreases |s.text| - p, 0
  {
    var (p1, _) :- Skip(s, p, ev);
    var c := Peek(s.text, p1);
    if c == ']' then Send(s, EndArray(Increment(count)), p1 + 1, p1 + 1, ev)
    else if c != ',' then Fail(ArrayMissCommaOrSquareBracket, p1, ev)
    else
      var (p2, _) :- Skip(s, p1 + 1, ev);
      if s.flags.trailingCommas && Peek(s.text, p2) == ']' then
        Send(s, EndArray(Increment(count)), p2 + 1, p2, ev)
      else ParseElements(s, p2, Increment(count), ev)
  }

  /** Parse without kParseIterativeFlag. */
  function Parse(s: Source): (r: Outcome)
    requires Sound(s)
    ensures r.Ok? ==> r.pos <= |s.text|
  {
    var (p, _) :- Skip(s, 0, []);
    if Peek(s.text, p) == '\0' then Fail(DocumentEmpty, p, [])
    else
      var (q, ev) :- ParseValue(s, p, []);
      if s.flags.stopWhenDone then Ok(q, ev)
      else
        var (r, _) :- Skip(s, q, ev);
        if Peek(s.text, r) != '\0' then Fail(DocumentRootNotSingular, r, ev) else Ok(r, ev)
  }
}
