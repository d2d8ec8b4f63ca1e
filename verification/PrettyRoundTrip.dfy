/** Reading back what PrettyWriter wrote. */
module PrettyRoundTrip {
  import opened Options
  import opened Machine
  import opened Sax
  import opened Scanner
  import opened Dom
  import opened Pretty
  import G = RecursiveGrammar
  import A = Automaton
  import E = ReaderEquivalence
  import C = EventCounts
  import D = DocumentParse

  /** The class in which the reader delivers an integer: unsigned unless negative, 32 bits when they suffice. */
  function ReaderEvent(n: int): Event {
    if n < 0 then (if n >= -0x8000_0000 then Int(n) else Int64(n))
    else if n < 0x1_0000_0000 then Uint(n)
    else Uint64(n)
  }

  /** The event that comes back for one that was written: an integer in the reader's class, a
    * count modulo 2^32. */
  function ReadBack(e: Event): (r: Event)
    ensures IntegerOf(r) == IntegerOf(e)
  {
    match e
    case EndObject(n) => EndObject(n % SIZE_MODULUS)
    case EndArray(n) => EndArray(n % SIZE_MODULUS)
    case _ =>
      match IntegerOf(e)
      case Some(n) => ReaderEvent(n)
      case None => e
  }

  function Reread(ev: seq<Event>): (r: seq<Event>)
    ensures |r| == |ev|
  {
    seq(|ev|, i requires 0 <= i < |ev| => ReadBack(ev[i]))
  }

  lemma RereadConcat(a: seq<Event>, b: seq<Event>)
    ensures Reread(a + b) == Reread(a) + Reread(b)
  {
  }

  /** The tree with every string and name as the handler gets it. */
  function Relayed(got: string -> string, v: Value): (r: Value)
    decreases v, 0
  {
    match v
    case VString(str) => VString(got(str))
    case VObject(ms) => VObject(RelayedMembers(got, ms))
    case VArray(es) => VArray(RelayedElements(got, es))
    case _ => v
  }

  function RelayedMembers(got: string -> string, ms: seq<Member>): (r: seq<Member>)
    ensures |r| == |ms|
    decreases ms, 1
  {
    if ms == [] then [] else [Member(got(ms[0].name), Relayed(got, ms[0].value))] + RelayedMembers(got, ms[1..])
  }

  function RelayedElements(got: string -> string, es: seq<Value>): (r: seq<Value>)
    ensures |r| == |es|
    decreases es, 1
  {
    if es == [] then [] else [Relayed(got, es[0])] + RelayedElements(got, es[1..])
  }

  /** The history after reading a value back, in the order in which a parser sends it. */
  function Sent(got: string -> string, ev: seq<Event>, v: Value): seq<Event>
    decreases v, 0
  {
    match v
    case VObject(ms) => SentMembers(got, ev + [StartObject], ms) + [EndObject(|ms| % SIZE_MODULUS)]
    case VArray(es) => SentElements(got, ev + [StartArray], es) + [EndArray(|es| % SIZE_MODULUS)]
    case _ => ev + [ReadBack(Events(Relayed(got, v))[0])]
  }

  function SentMembers(got: string -> string, ev: seq<Event>, ms: seq<Member>): seq<Event>
    decreases ms, 1
  {
    if ms == [] then ev else SentMembers(got, Sent(got, ev + [Key(got(ms[0].name))], ms[0].value), ms[1..])
  }

  function SentElements(got: string -> string, ev: seq<Event>, es: seq<Value>): seq<Event>
    decreases es, 1
  {
    if es == [] then ev else SentElements(got, Sent(got, ev, es[0]), es[1..])
  }

  lemma RereadOne(e: Event)
    ensures Reread([e]) == [ReadBack(e)]
  {
  }

  lemma {:induction false} SentIsReread(got: string -> string, ev: seq<Event>, v: Value)
    ensures Sent(got, ev, v) == ev + Reread(Events(Relayed(got, v)))
    decreases v, 0
  {
    hide Reread, SentMembers, SentElements, MemberEvents, ElementEvents, RelayedMembers, RelayedElements;
    match v
    case VObject(ms) =>
      var inner := MemberEvents(RelayedMembers(got, ms));
      SentMembersIsReread(got, ev + [StartObject], ms);
      RereadConcat([StartObject], inner);
      RereadConcat([StartObject] + inner, [EndObject(|ms|)]);
      RereadOne(StartObject);
      RereadOne(EndObject(|ms|));
    case VArray(es) =>
      var inner := ElementEvents(RelayedElements(got, es));
      SentElementsIsReread(got, ev + [StartArray], es);
      RereadConcat([StartArray], inner);
      RereadConcat([StartArray] + inner, [EndArray(|es|)]);
      RereadOne(StartArray);
      RereadOne(EndArray(|es|));
    case _ => RereadOne(Events(Relayed(got, v))[0]);
  }

  lemma {:induction false} SentMembersIsReread(got: string -> string, ev: seq<Event>, ms: seq<Member>)
    ensures SentMembers(got, ev, ms) == ev + Reread(MemberEvents(RelayedMembers(got, ms)))
    decreases ms, 1
  {
    hide Reread, Events, Sent, Relayed;
    if ms == [] {
      RereadNothing();
    } else {
      var m, name := ms[0], got(ms[0].name);
      SentIsReread(got, ev + [Key(name)], m.value);
      SentMembersIsReread(got, Sent(got, ev + [Key(name)], m.value), ms[1..]);
      RereadMember(ev, name, Events(Relayed(got, m.value)), MemberEvents(RelayedMembers(got, ms[1..])));
      assert RelayedMembers(got, ms)[1..] == RelayedMembers(got, ms[1..]);
    }
  }

  lemma RereadJoin(ev: seq<Event>, a: seq<Event>, c: seq<Event>)
    ensures (ev + Reread(a)) + Reread(c) == ev + Reread(a + c)
  {
    hide Reread;
    RereadConcat(a, c);
  }

  lemma RereadNothing()
    ensures Reread([]) == []
  {
  }

  lemma RereadMember(ev: seq<Event>, name: string, value: seq<Event>, rest: seq<Event>)
    ensures ((ev + [Key(name)]) + Reread(value)) + Reread(rest) == ev + Reread(([Key(name)] + value) + rest)
  {
    hide Reread;
    RereadConcat([Key(name)], value);
    RereadConcat([Key(name)] + value, rest);
    RereadOne(Key(name));
  }

  lemma {:induction false} SentElementsIsReread(got: string -> string, ev: seq<Event>, es: seq<Value>)
    ensures SentElements(got, ev, es) == ev + Reread(ElementEvents(RelayedElements(got, es)))
    decreases es, 1
  {
    hide Reread, Events, Sent, Relayed;
    if es == [] {
      RereadNothing();
    } else {
      SentIsReread(got, ev, es[0]);
      SentElementsIsReread(got, Sent(got, ev, es[0]), es[1..]);
      var first, rest := Relayed(got, es[0]), RelayedElements(got, es[1..]);
      assert RelayedElements(got, es) == [first] + rest && ([first] + rest)[1..] == rest;
      RereadJoin(ev, Events(first), ElementEvents(rest));
    }
  }

  predicate At(text: string, p: nat, w: string) {
    p + |w| <= |text| && text[p..p + |w|] == w
  }

  /** From `p` on, the text reads `t`. */
  predicate From(text: string, p: nat, t: string) {
    p <= |text| && text[p..] == t
  }

  function Head(t: string): char {
    if t == "" then '\0' else t[0]
  }

  lemma FromHead(text: string, p: nat, t: string)
    requires From(text, p, t)
    ensures Peek(text, p) == Head(t) && p <= |text| && (p == |text| <==> t == "")
  {
  }

  lemma Peel(text: string, p: nat, w: string, t: string)
    requires From(text, p, w + t)
    ensures From(text, p + |w|, t) && At(text, p, w) && (w != "" ==> p < |text| && text[p] == w[0])
  {
    assert text[p..][|w|..] == t && text[p..][..|w|] == w;
    assert text[p + |w|..] == text[p..][|w|..];
    assert text[p..p + |w|] == text[p..][..|w|];
  }

  ghost predicate Accepting(s: Source) {
    forall ev :: s.handler(ev)
  }

  /** A character that can follow a token in written text. */
  predicate Ends(c: char) {
    c == '\0' || IsBlank(c) || c == ',' || c == ']' || c == '}'
  }

  /** Scanning a written string gives `got` of it, wherever it stands in the text. */
  ghost predicate StringFaithful(s: Source, f: Format, got: string -> string, str: string) {
    var w := f.writeString(str);
    && Head(w) == '"'
    && forall p: nat {:trigger s.lexString(s.text, p)} | At(s.text, p, w) ::
         s.lexString(s.text, p) == StringAt(got(str), p + |w|)
  }

  /** Scanning a written number that ends where its token ends gives it back, in the reader's class. */
  ghost predicate NumberFaithful(s: Source, f: Format, e: Event) {
    var w := f.writeNumber(e);
    && StartsNumber(s, Head(w))
    && forall p: nat {:trigger s.lexNumber(s.text, p)} | At(s.text, p, w) && Ends(Peek(s.text, p + |w|)) ::
         s.lexNumber(s.text, p) == NumberAt(ReadBack(e), p + |w|)
  }

  /** Every string and number in the tree is written faithfully. */
  ghost predicate Readable(s: Source, f: Format, got: string -> string, v: Value)
    decreases v
  {
    match v
    case VInteger(n) => NumberFaithful(s, f, IntegerEvent(n))
    case VDouble(d) => NumberFaithful(s, f, Double(d))
    case VString(str) => StringFaithful(s, f, got, str)
    case VObject(ms) => forall m | m in ms :: StringFaithful(s, f, got, m.name) && Readable(s, f, got, m.value)
    case VArray(es) => forall e | e in es :: Readable(s, f, got, e)
    case _ => true
  }

  ghost predicate Setting(s: Source, f: Format) {
    Sound(s) && Accepting(s) && IsBlank(f.indentChar)
  }

  predicate AllBlank(w: string) {
    forall c | c in w :: IsBlank(c)
  }

  /** Blanks lead up to `t`, which begins with neither a blank nor a comment. */
  lemma SkipTo(s: Source, p: nat, w: string, t: string, ev: seq<Event>)
    requires From(s.text, p, w + t) && AllBlank(w) && !IsBlank(Head(t)) && Head(t) != '/'
    ensures p <= |s.text| && Skip(s, p, ev) == Ok(p + |w|, ev) && From(s.text, p + |w|, t)
  {
    Peel(s.text, p, w, t);
    FromHead(s.text, p + |w|, t);
    assert forall k | p <= k < p + |w| :: s.text[k] == w[k - p] && w[k - p] in w;
  }

  lemma {:induction false} MatchedWord(text: string, p: nat, w: string)
    requires At(text, p, w) && '\0' !in w
    ensures Matched(text, p, w) == |w|
    decreases |w|
  {
    if w != "" {
      assert text[p] == w[0] && text[p + 1..p + |w|] == w[1..];
      assert forall c | c in w[1..] :: c in w;
      MatchedWord(text, p + 1, w[1..]);
    }
  }

  lemma LiteralTail(text: string, p: nat, word: string)
    requires At(text, p, word) && word != "" && '\0' !in word
    ensures text[p] == word[0] && At(text, p + 1, word[1..]) && '\0' !in word[1..]
  {
    assert text[p + 1..p + |word|] == word[1..];
    assert forall c | c in word[1..] :: c in word;
  }

  lemma ReadLiteral(s: Source, p: nat, word: string, e: Event, ev: seq<Event>)
    requires Accepting(s) && At(s.text, p, word) && word != "" && '\0' !in word
    ensures p < |s.text| && s.text[p] == word[0]
    ensures ParseLiteral(s, p, word, e, ev) == Ok(p + |word|, ev + [e])
  {
    hide Matched;
    LiteralTail(s.text, p, word);
    MatchedWord(s.text, p + 1, word[1..]);
  }

  /** The first character of a written value: it can be mistaken for no blank, comment or bracket. */
  lemma TextHead(s: Source, f: Format, got: string -> string, v: Value, d: nat, rest: string)
    requires Readable(s, f, got, v)
    ensures var h := Head(Text(f, v, d, rest)); !Ends(h) && h != '/'
  {
    hide Separator, Members, Elements;
  }

  lemma {:induction false} ReadValue(s: Source, f: Format, got: string -> string, v: Value, p: nat, d: nat, rest: string, ev: seq<Event>) returns (q: nat)
    requires Setting(s, f) && Readable(s, f, got, v)
    requires From(s.text, p, Text(f, v, d, rest)) && Ends(Head(rest))
    ensures From(s.text, q, rest) && p < |s.text| && G.ParseValue(s, p, ev) == Ok(q, Sent(got, ev, v))
    decreases v, 0
  {
    hide From, Text, Skip, Sent, G.ParseObject, G.ParseArray, ParseScalar;
    match v
    case VObject(ms) => q := ReadObject(s, f, got, ms, p, d, rest, ev);
    case VArray(es) => q := ReadArray(s, f, got, es, p, d, rest, ev);
    case _ => q := ReadScalar(s, f, got, v, p, d, rest, ev);
  }

  lemma ReadScalar(s: Source, f: Format, got: string -> string, v: Value, p: nat, d: nat, rest: string, ev: seq<Event>) returns (q: nat)
    requires Setting(s, f) && Readable(s, f, got, v) && !v.VObject? && !v.VArray?
    requires From(s.text, p, Text(f, v, d, rest)) && Ends(Head(rest))
    ensures From(s.text, q, rest) && p < |s.text| && G.ParseValue(s, p, ev) == Ok(q, Sent(got, ev, v))
  {
    hide From, At, ParseScalar, Setting, Readable, Sent, Token, Ends;
    var w := Token(f, Events(v)[0]);
    q := p + |w|;
    Peel(s.text, p, w, rest);
    FromHead(s.text, q, rest);
    ScalarRead(s, f, got, v, p, ev);
  }

  lemma ScalarRead(s: Source, f: Format, got: string -> string, v: Value, p: nat, ev: seq<Event>)
    requires Setting(s, f) && Readable(s, f, got, v) && !v.VObject? && !v.VArray?
    requires var w := Token(f, Events(v)[0]); At(s.text, p, w) && Ends(Peek(s.text, p + |w|))
    ensures p < |s.text| && s.text[p] != '{' && s.text[p] != '['
    ensures ParseScalar(s, p, ev) == Ok(p + |Token(f, Events(v)[0])|, Sent(got, ev, v))
  {
    hide At, ParseLiteral, ParseNumber, ParseString, NumberFaithful, StringFaithful, Sent, Sound, Accepting;
    SentScalar(got, ev, v);
    var w := Token(f, Events(v)[0]);
    match v
    case VNull => ReadLiteral(s, p, w, Null, ev);
    case VBool(b) => ReadLiteral(s, p, w, Bool(b), ev);
    case VString(str) => ReadString(s, f, got, str, p, ev);
    case VInteger(n) => ReadNumber(s, f, IntegerEvent(n), p, ev);
    case VDouble(x) => ReadNumber(s, f, Double(x), p, ev);
  }

  lemma SentScalar(got: string -> string, ev: seq<Event>, v: Value)
    requires !v.VObject? && !v.VArray?
    ensures Sent(got, ev, v) == ev +
      [match v
       case VString(str) => String(got(str))
       case VInteger(n) => ReadBack(IntegerEvent(n))
       case VBool(b) => Bool(b)
       case VDouble(d) => Double(d)
       case _ => Null]
  {
  }

  lemma ReadString(s: Source, f: Format, got: string -> string, str: string, p: nat, ev: seq<Event>)
    requires Sound(s) && Accepting(s) && StringFaithful(s, f, got, str)
    requires At(s.text, p, f.writeString(str))
    ensures p < |s.text| && s.text[p] == '"'
    ensures ParseString(s, p, false, ev) == Ok(p + |f.writeString(str)|, ev + [String(got(str))])
  {
    var w := f.writeString(str);
    assert w != "" && s.text[p] == w[0];
    assert s.lexString(s.text, p) == StringAt(got(str), p + |w|);
  }

  lemma ReadNumber(s: Source, f: Format, e: Event, p: nat, ev: seq<Event>)
    requires Sound(s) && Accepting(s) && NumberFaithful(s, f, e)
    requires At(s.text, p, f.writeNumber(e)) && Ends(Peek(s.text, p + |f.writeNumber(e)|))
    ensures ParseNumber(s, p, ev) == Ok(p + |f.writeNumber(e)|, ev + [ReadBack(e)])
    ensures p < |s.text| && StartsNumber(s, s.text[p])
  {
    var w := f.writeNumber(e);
    assert w != "" && s.text[p] == w[0];
    assert s.lexNumber(s.text, p) == NumberAt(ReadBack(e), p + |w|);
  }

  lemma IndentBlank(f: Format, d: nat)
    requires IsBlank(f.indentChar)
    ensures AllBlank("\n" + Indent(f, d))
  {
  }

  /** What stands before a member name, and before an element, is a comma, except at the first, and blanks. */
  lemma NameSeparator(f: Format, count: nat, d: nat, t: string) returns (blanks: string)
    requires count % 2 == 0 && IsBlank(f.indentChar)
    ensures AllBlank(blanks)
    ensures Separator(f, Level(false, count), d) + t == if count == 0 then blanks + t else "," + (blanks + t)
  {
    blanks := "\n" + Indent(f, d);
    IndentBlank(f, d);
    assert ",\n" + Indent(f, d) == "," + blanks;
    Assoc(",", blanks, t);
  }

  lemma ElementSeparator(f: Format, count: nat, d: nat, t: string) returns (blanks: string)
    requires IsBlank(f.indentChar)
    ensures AllBlank(blanks)
    ensures Separator(f, Level(true, count), d) + t == if count == 0 then blanks + t else "," + (blanks + t)
  {
    blanks := if f.singleLineArray then (if count > 0 then " " else "") else "\n" + Indent(f, d);
    IndentBlank(f, d);
    assert Separator(f, Level(true, count), d) == if count == 0 then blanks else "," + blanks;
    Assoc(",", blanks, t);
  }

  lemma SentNothing(got: string -> string, ev: seq<Event>)
    ensures SentMembers(got, ev, []) == SentElements(got, ev, []) == ev
  {
  }

  /** A comma, then blanks. */
  lemma ReadComma(s: Source, p: nat, blanks: string, tail: string, ev: seq<Event>)
    requires From(s.text, p, "," + (blanks + tail)) && AllBlank(blanks) && !IsBlank(Head(tail)) && Head(tail) != '/'
    ensures p < |s.text| && s.text[p] == ',' && Skip(s, p, ev) == Ok(p, ev)
    ensures Skip(s, p + 1, ev) == Ok(p + 1 + |blanks|, ev)
    ensures From(s.text, p + 1 + |blanks|, tail) && Peek(s.text, p + 1 + |blanks|) == Head(tail)
  {
    hide From, At, Skip;
    var t := "," + (blanks + tail);
    assert t == "" + t;
    SkipTo(s, p, "", t, ev);
    Peel(s.text, p, ",", blanks + tail);
    SkipTo(s, p + 1, blanks, tail, ev);
    FromHead(s.text, p + 1 + |blanks|, tail);
  }

  /** Blanks, then a closing bracket. */
  lemma ReadClose(s: Source, p: nat, gap: string, close: string, rest: string, ev: seq<Event>)
    requires From(s.text, p, gap + (close + rest)) && AllBlank(gap) && (close == "}" || close == "]")
    ensures p <= |s.text| && Skip(s, p, ev) == Ok(p + |gap|, ev)
    ensures Peek(s.text, p + |gap|) == close[0] && From(s.text, p + |gap| + 1, rest)
  {
    hide From, At, Skip;
    SkipTo(s, p, gap, close + rest, ev);
    Peel(s.text, p + |gap|, close, rest);
  }

  lemma {:induction false} ReadObject(s: Source, f: Format, got: string -> string, ms: seq<Member>, p: nat, d: nat, rest: string, ev: seq<Event>) returns (q: nat)
    requires Setting(s, f)
    requires forall m | m in ms :: StringFaithful(s, f, got, m.name) && Readable(s, f, got, m.value)
    requires From(s.text, p, Text(f, VObject(ms), d, rest))
    ensures p < |s.text| && s.text[p] == '{'
    ensures From(s.text, q, rest) && G.ParseObject(s, p, ev) == Ok(q, Sent(got, ev, VObject(ms)))
    decreases ms, 3
  {
    hide From, At, Skip, Readable, StringFaithful, Repeat, SentMembers, Separator, NameAndValue, Members, G.ParseMembers, Indent;
    var close := ObjectGap(f, |ms|, d) + ("}" + rest);
    var inner := Members(f, ms, 0, d + 1, close);
    var ev1 := ev + [StartObject];
    Peel(s.text, p, "{", inner);
    if ms == [] {
      assert inner == "" + ("}" + rest) by { NoMembers(f, d + 1, close); }
      ReadClose(s, p + 1, "", "}", rest, ev1);
      q := p + 2;
      SentNothing(got, ev1);
    } else {
      IndentBlank(f, d);
      var p1 := ReadNameLead(s, f, got, ms, p + 1, d + 1, close, ev1);
      q := ReadMembers(s, f, got, ms, 0, 0, p1, d + 1, ObjectGap(f, |ms|, d), rest, ev1);
    }
  }

  lemma NoMembers(f: Format, d: nat, after: string)
    ensures Members(f, [], 0, d, after) == after
  {
  }

  lemma MembersText(f: Format, ms: seq<Member>, count: nat, d: nat, after: string)
    ensures Members(f, ms, count, d, after) ==
      if ms == [] then after
      else Separator(f, Level(false, count), d) + NameAndValue(f, ms[0], count, d, Members(f, ms[1..], count + 2, d, after))
  {
  }

  lemma ElementsText(f: Format, es: seq<Value>, count: nat, d: nat, after: string)
    ensures Elements(f, es, count, d, after) ==
      if es == [] then after
      else Separator(f, Level(true, count), d) + Text(f, es[0], d, Elements(f, es[1..], count + 1, d, after))
  {
  }

  lemma NoElements(f: Format, d: nat, after: string)
    ensures Elements(f, [], 0, d, after) == after
  {
  }

  /** The blanks before the first name. */
  lemma ReadNameLead(s: Source, f: Format, got: string -> string, ms: seq<Member>, p: nat, d: nat, after: string, ev: seq<Event>) returns (q: nat)
    requires Setting(s, f) && ms != [] && StringFaithful(s, f, got, ms[0].name)
    requires From(s.text, p, Members(f, ms, 0, d, after))
    ensures From(s.text, q, NameAndValue(f, ms[0], 0, d, Members(f, ms[1..], 2, d, after)))
    ensures p <= |s.text| && Skip(s, p, ev) == Ok(q, ev) && q <= |s.text| && Peek(s.text, q) == '"'
  {
    hide From, At, Skip, NameAndValue, Separator, StringFaithful;
    var tail := NameAndValue(f, ms[0], 0, d, Members(f, ms[1..], 2, d, after));
    var blanks := NameSeparator(f, 0, d, tail);
    NameHead(s, f, got, ms[0], 0, d, Members(f, ms[1..], 2, d, after));
    q := p + |blanks|;
    SkipTo(s, p, blanks, tail, ev);
    FromHead(s.text, q, tail);
  }

  lemma NameHead(s: Source, f: Format, got: string -> string, m: Member, count: nat, d: nat, rest: string)
    requires StringFaithful(s, f, got, m.name)
    ensures Head(NameAndValue(f, m, count, d, rest)) == '"'
  {
    hide Separator, Text;
  }

  lemma ColonText(f: Format, count: nat, d: nat, t: string)
    requires count % 2 == 0
    ensures Separator(f, Level(false, count + 1), d) + t == "" + (":" + (" " + t))
  {
    Assoc(":", " ", t);
  }

  lemma ReadColon(s: Source, f: Format, count: nat, p: nat, d: nat, t: string, ev: seq<Event>)
    requires From(s.text, p, Separator(f, Level(false, count + 1), d) + t) && count % 2 == 0
    requires !IsBlank(Head(t)) && Head(t) != '/'
    ensures p < |s.text| && s.text[p] == ':' && Skip(s, p, ev) == Ok(p, ev)
    ensures Skip(s, p + 1, ev) == Ok(p + 2, ev) && From(s.text, p + 2, t)
  {
    hide From, At, Skip, Separator;
    ColonText(f, count, d, t);
    SkipTo(s, p, "", ":" + (" " + t), ev);
    Peel(s.text, p, ":", " " + t);
    SkipTo(s, p + 1, " ", t, ev);
  }

  lemma AfterColon(s: Source, p: nat, q: nat, k: nat, ev: seq<Event>)
    requires Sound(s) && p < |s.text| && s.text[p] == ':' && Skip(s, p + 1, ev) == Ok(q, ev) && q <= |s.text|
    ensures var v := G.ParseValue(s, q, ev);
            G.AfterKey(s, p, k, ev) == if v.Ok? then G.AfterMember(s, v.pos, k, v.events) else v
  {
    hide Skip, G.AfterMember, G.ParseValue;
  }

  /** A name and its colon, up to the value. */
  lemma ReadName(s: Source, f: Format, got: string -> string, m: Member, count: nat, k: nat, p: nat, d: nat, tail: string, ev: seq<Event>) returns (q: nat)
    requires Setting(s, f) && count % 2 == 0 && StringFaithful(s, f, got, m.name) && Readable(s, f, got, m.value)
    requires From(s.text, p, NameAndValue(f, m, count, d, tail))
    ensures From(s.text, q, Text(f, m.value, d, tail)) && p <= |s.text| && q <= |s.text|
    ensures var v := G.ParseValue(s, q, ev + [Key(got(m.name))]);
            G.ParseMembers(s, p, k, ev) == if v.Ok? then G.AfterMember(s, v.pos, k, v.events) else v
  {
    hide From, At, Skip, Text, Separator, G.AfterMember, G.AfterKey, G.ParseValue, Readable;
    var name, value := f.writeString(m.name), Text(f, m.value, d, tail);
    Peel(s.text, p, name, Separator(f, Level(false, count + 1), d) + value);
    var p1, ev1 := p + |name|, ev + [Key(got(m.name))];
    assert s.lexString(s.text, p) == StringAt(got(m.name), p1);
    TextHead(s, f, got, m.value, d, tail);
    ReadColon(s, f, count, p1, d, value, ev1);
    q := p1 + 2;
    assert G.ParseMembers(s, p, k, ev) == G.AfterKey(s, p1, k, ev1);
    AfterColon(s, p1, q, k, ev1);
  }

  /** At a member name, with `k` members read and `count` names and values written before. */
  lemma {:induction false} ReadMembers(s: Source, f: Format, got: string -> string, ms: seq<Member>, count: nat, k: nat, p: nat, d: nat, gap: string, rest: string, ev: seq<Event>) returns (q: nat)
    requires Setting(s, f) && AllBlank(gap) && count % 2 == 0
    requires ms != []
    requires forall m | m in ms :: StringFaithful(s, f, got, m.name) && Readable(s, f, got, m.value)
    requires From(s.text, p, NameAndValue(f, ms[0], count, d, Members(f, ms[1..], count + 2, d, gap + ("}" + rest))))
    ensures From(s.text, q, rest) && p <= |s.text|
    ensures G.ParseMembers(s, p, k, ev) == Ok(q, SentMembers(got, ev, ms) + [EndObject((k + |ms|) % SIZE_MODULUS)])
    decreases ms, 2
  {
    hide From, At, Skip, Members, NameAndValue, Text, Sent, StringFaithful, Readable, G.AfterMember, G.ParseMembers, G.ParseValue;
    var m := ms[0];
    var tail, ev1 := Members(f, ms[1..], count + 2, d, gap + ("}" + rest)), ev + [Key(got(m.name))];
    MembersHead(f, ms[1..], count + 2, d, gap, rest);
    var p1 := ReadName(s, f, got, m, count, k, p, d, tail, ev);
    var p2 := ReadValue(s, f, got, m.value, p1, d, tail, ev1);
    q := ReadAfterMember(s, f, got, ms[1..], count + 2, k, p2, d, gap, rest, Sent(got, ev1, m.value));
  }

  /** The closing brace after the last member. */
  lemma CloseAfterMember(s: Source, f: Format, count: nat, k: nat, p: nat, d: nat, gap: string, rest: string, ev: seq<Event>) returns (q: nat)
    requires Setting(s, f) && AllBlank(gap)
    requires From(s.text, p, Members(f, [], count, d, gap + ("}" + rest)))
    ensures From(s.text, q, rest) && p <= |s.text|
    ensures G.AfterMember(s, p, k, ev) == Ok(q, ev + [EndObject((k + 1) % SIZE_MODULUS)])
  {
    hide From, At, Skip, G.ParseMembers, Separator, NameAndValue;
    ReadClose(s, p, gap, "}", rest, ev);
    q := p + |gap| + 1;
  }

  /** What is left to write before a further name: a comma, blanks, and the name. */
  lemma NameComes(s: Source, f: Format, got: string -> string, ms: seq<Member>, count: nat, d: nat, after: string) returns (blanks: string)
    requires Setting(s, f) && count % 2 == 0 && count > 0 && ms != [] && StringFaithful(s, f, got, ms[0].name)
    ensures var tail := NameAndValue(f, ms[0], count, d, Members(f, ms[1..], count + 2, d, after));
      Members(f, ms, count, d, after) == "," + (blanks + tail) && AllBlank(blanks) && Head(tail) == '"'
  {
    hide StringFaithful, Separator, NameAndValue, Members, AllBlank, Head, Sound;
    MembersText(f, ms, count, d, after);
    var tail := NameAndValue(f, ms[0], count, d, Members(f, ms[1..], count + 2, d, after));
    blanks := NameSeparator(f, count, d, tail);
    NameHead(s, f, got, ms[0], count, d, Members(f, ms[1..], count + 2, d, after));
  }

  /** The comma and the blanks before another member. */
  lemma CommaThenMember(s: Source, f: Format, got: string -> string, ms: seq<Member>, count: nat, k: nat, p: nat, d: nat, after: string, ev: seq<Event>) returns (q: nat)
    requires Setting(s, f) && count % 2 == 0 && count > 0 && ms != [] && StringFaithful(s, f, got, ms[0].name)
    requires From(s.text, p, Members(f, ms, count, d, after))
    ensures From(s.text, q, NameAndValue(f, ms[0], count, d, Members(f, ms[1..], count + 2, d, after)))
    ensures p <= |s.text| && q <= |s.text| && G.AfterMember(s, p, k, ev) == G.ParseMembers(s, q, Increment(k), ev)
  {
    hide From, At, Skip, StringFaithful, NameAndValue, Members, Increment, AllBlank, Head, Peek, G.ParseMembers, G.AfterMember, Sound;
    var blanks := NameComes(s, f, got, ms, count, d, after);
    var tail := NameAndValue(f, ms[0], count, d, Members(f, ms[1..], count + 2, d, after));
    ReadComma(s, p, blanks, tail, ev);
    q := p + 1 + |blanks|;
    NextMember(s, p, q, k, ev);
  }

  /** A comma leads on to the next name. */
  lemma NextMember(s: Source, p: nat, q: nat, k: nat, ev: seq<Event>)
    requires Sound(s) && p < |s.text| && s.text[p] == ',' && q <= |s.text| && Peek(s.text, q) == '"'
    requires Skip(s, p, ev) == Ok(p, ev) && Skip(s, p + 1, ev) == Ok(q, ev)
    ensures G.AfterMember(s, p, k, ev) == G.ParseMembers(s, q, Increment(k), ev)
  {
    hide Skip, Increment, G.ParseMembers, Sound;
  }

  lemma MembersHead(f: Format, ms: seq<Member>, count: nat, d: nat, gap: string, rest: string)
    requires AllBlank(gap) && count > 0 && count % 2 == 0
    ensures Ends(Head(Members(f, ms, count, d, gap + ("}" + rest))))
  {
    hide NameAndValue;
    assert gap != "" ==> gap[0] in gap;
  }

  lemma {:induction false} ReadAfterMember(s: Source, f: Format, got: string -> string, ms: seq<Member>, count: nat, k: nat, p: nat, d: nat, gap: string, rest: string, ev: seq<Event>) returns (q: nat)
    requires Setting(s, f) && AllBlank(gap) && count % 2 == 0 && count > 0
    requires forall m | m in ms :: StringFaithful(s, f, got, m.name) && Readable(s, f, got, m.value)
    requires From(s.text, p, Members(f, ms, count, d, gap + ("}" + rest)))
    ensures From(s.text, q, rest) && p <= |s.text|
    ensures G.AfterMember(s, p, k, ev) == Ok(q, SentMembers(got, ev, ms) + [EndObject((k + 1 + |ms|) % SIZE_MODULUS)])
    decreases ms, 3
  {
    hide From, At, Skip, Readable, StringFaithful, Indent, Separator, NameAndValue, SentMembers, Members, G.ParseMembers, G.AfterMember;
    if ms == [] {
      q := CloseAfterMember(s, f, count, k, p, d, gap, rest, ev);
      SentNothing(got, ev);
    } else {
      assert StringFaithful(s, f, got, ms[0].name);
      var p1 := CommaThenMember(s, f, got, ms, count, k, p, d, gap + ("}" + rest), ev);
      CountOn(k, |ms|);
      q := ReadMembers(s, f, got, ms, count, Increment(k), p1, d, gap, rest, ev);
    }
  }

  lemma {:induction false} ReadArray(s: Source, f: Format, got: string -> string, es: seq<Value>, p: nat, d: nat, rest: string, ev: seq<Event>) returns (q: nat)
    requires Setting(s, f) && forall e | e in es :: Readable(s, f, got, e)
    requires From(s.text, p, Text(f, VArray(es), d, rest))
    ensures p < |s.text| && s.text[p] == '['
    ensures From(s.text, q, rest) && G.ParseArray(s, p, ev) == Ok(q, Sent(got, ev, VArray(es)))
    decreases es, 3
  {
    hide From, At, Skip, Readable, Repeat, SentElements, Separator, Elements, G.ParseElements, Indent;
    var close := ArrayGap(f, |es|, d) + ("]" + rest);
    var inner := Elements(f, es, 0, d + 1, close);
    var ev1 := ev + [StartArray];
    Peel(s.text, p, "[", inner);
    if es == [] {
      assert inner == "" + ("]" + rest) by { NoElements(f, d + 1, close); }
      ReadClose(s, p + 1, "", "]", rest, ev1);
      q := p + 2;
      SentNothing(got, ev1);
    } else {
      IndentBlank(f, d);
      var p1 := ReadLead(s, f, got, es, p + 1, d + 1, close, ev1);
      q := ReadElements(s, f, got, es, 0, 0, p1, d + 1, ArrayGap(f, |es|, d), rest, ev1);
    }
  }

  /** The blanks before the first element. */
  lemma ReadLead(s: Source, f: Format, got: string -> string, es: seq<Value>, p: nat, d: nat, after: string, ev: seq<Event>) returns (q: nat)
    requires Setting(s, f) && es != [] && Readable(s, f, got, es[0])
    requires From(s.text, p, Elements(f, es, 0, d, after))
    ensures From(s.text, q, Text(f, es[0], d, Elements(f, es[1..], 1, d, after)))
    ensures p <= |s.text| && Skip(s, p, ev) == Ok(q, ev) && q <= |s.text| && Peek(s.text, q) != ']'
  {
    hide From, At, Skip, Text, Separator, Readable;
    var tail := Text(f, es[0], d, Elements(f, es[1..], 1, d, after));
    var blanks := ElementSeparator(f, 0, d, tail);
    TextHead(s, f, got, es[0], d, Elements(f, es[1..], 1, d, after));
    q := p + |blanks|;
    SkipTo(s, p, blanks, tail, ev);
    FromHead(s.text, q, tail);
  }

  /** At an element, with `k` elements read and `count` written before. */
  lemma {:induction false} ReadElements(s: Source, f: Format, got: string -> string, es: seq<Value>, count: nat, k: nat, p: nat, d: nat, gap: string, rest: string, ev: seq<Event>) returns (q: nat)
    requires Setting(s, f) && AllBlank(gap)
    requires es != [] && forall e | e in es :: Readable(s, f, got, e)
    requires From(s.text, p, Text(f, es[0], d, Elements(f, es[1..], count + 1, d, gap + ("]" + rest))))
    ensures From(s.text, q, rest) && p <= |s.text|
    ensures G.ParseElements(s, p, k, ev) == Ok(q, SentElements(got, ev, es) + [EndArray((k + |es|) % SIZE_MODULUS)])
    decreases es, 2
  {
    hide From, At, Skip, Readable, Repeat, Elements, Text, Sent, G.AfterElement, G.ParseValue;
    var tail := Elements(f, es[1..], count + 1, d, gap + ("]" + rest));
    ElementsHead(f, es[1..], count + 1, d, gap, rest);
    var p1 := ReadValue(s, f, got, es[0], p, d, tail, ev);
    q := ReadAfterElement(s, f, got, es[1..], count + 1, k, p1, d, gap, rest, Sent(got, ev, es[0]));
  }

  /** The closing bracket after the last element. */
  lemma CloseAfterElement(s: Source, f: Format, count: nat, k: nat, p: nat, d: nat, gap: string, rest: string, ev: seq<Event>) returns (q: nat)
    requires Setting(s, f) && AllBlank(gap)
    requires From(s.text, p, Elements(f, [], count, d, gap + ("]" + rest)))
    ensures From(s.text, q, rest) && p <= |s.text|
    ensures G.AfterElement(s, p, k, ev) == Ok(q, ev + [EndArray((k + 1) % SIZE_MODULUS)])
  {
    hide From, At, Skip, G.ParseElements, Separator, Text;
    ReadClose(s, p, gap, "]", rest, ev);
    q := p + |gap| + 1;
  }

  /** What is left to write before a further element. */
  lemma ElementComes(s: Source, f: Format, got: string -> string, es: seq<Value>, count: nat, d: nat, after: string) returns (blanks: string)
    requires Setting(s, f) && count > 0 && es != [] && Readable(s, f, got, es[0])
    ensures var tail := Text(f, es[0], d, Elements(f, es[1..], count + 1, d, after));
      Elements(f, es, count, d, after) == "," + (blanks + tail) && AllBlank(blanks) && !Ends(Head(tail)) && Head(tail) != '/'
  {
    hide Readable, Separator, Text, Elements, AllBlank, Head, Ends, Sound;
    ElementsText(f, es, count, d, after);
    var tail := Text(f, es[0], d, Elements(f, es[1..], count + 1, d, after));
    blanks := ElementSeparator(f, count, d, tail);
    TextHead(s, f, got, es[0], d, Elements(f, es[1..], count + 1, d, after));
  }

  /** The comma and the blanks before another element. */
  lemma CommaThenElement(s: Source, f: Format, got: string -> string, es: seq<Value>, count: nat, k: nat, p: nat, d: nat, after: string, ev: seq<Event>) returns (q: nat)
    requires Setting(s, f) && count > 0 && es != [] && Readable(s, f, got, es[0])
    requires From(s.text, p, Elements(f, es, count, d, after))
    ensures From(s.text, q, Text(f, es[0], d, Elements(f, es[1..], count + 1, d, after)))
    ensures p <= |s.text| && q <= |s.text| && G.AfterElement(s, p, k, ev) == G.ParseElements(s, q, Increment(k), ev)
  {
    hide From, At, Skip, Readable, Text, Elements, Increment, AllBlank, Head, Peek, G.ParseElements, G.AfterElement, Sound;
    var blanks := ElementComes(s, f, got, es, count, d, after);
    var tail := Text(f, es[0], d, Elements(f, es[1..], count + 1, d, after));
    ReadComma(s, p, blanks, tail, ev);
    q := p + 1 + |blanks|;
    NextElement(s, p, q, k, ev);
  }

  /** A comma leads on to the next element. */
  lemma NextElement(s: Source, p: nat, q: nat, k: nat, ev: seq<Event>)
    requires Sound(s) && p < |s.text| && s.text[p] == ',' && q <= |s.text| && Peek(s.text, q) != ']'
    requires Skip(s, p, ev) == Ok(p, ev) && Skip(s, p + 1, ev) == Ok(q, ev)
    ensures G.AfterElement(s, p, k, ev) == G.ParseElements(s, q, Increment(k), ev)
  {
    hide Skip, Increment, G.ParseElements, Sound;
  }

  lemma ElementsHead(f: Format, es: seq<Value>, count: nat, d: nat, gap: string, rest: string)
    requires AllBlank(gap) && count > 0
    ensures Ends(Head(Elements(f, es, count, d, gap + ("]" + rest))))
  {
    hide Text;
    assert gap != "" ==> gap[0] in gap;
  }

  lemma {:induction false} ReadAfterElement(s: Source, f: Format, got: string -> string, es: seq<Value>, count: nat, k: nat, p: nat, d: nat, gap: string, rest: string, ev: seq<Event>) returns (q: nat)
    requires Setting(s, f) && AllBlank(gap) && count > 0
    requires forall e | e in es :: Readable(s, f, got, e)
    requires From(s.text, p, Elements(f, es, count, d, gap + ("]" + rest)))
    ensures From(s.text, q, rest) && p <= |s.text|
    ensures G.AfterElement(s, p, k, ev) == Ok(q, SentElements(got, ev, es) + [EndArray((k + 1 + |es|) % SIZE_MODULUS)])
    decreases es, 3
  {
    hide From, At, Skip, Readable, Indent, Separator, Text, Elements, SentElements, G.ParseElements, G.AfterElement;
    if es == [] {
      q := CloseAfterElement(s, f, count, k, p, d, gap, rest, ev);
      SentNothing(got, ev);
    } else {
      assert Readable(s, f, got, es[0]);
      var p1 := CommaThenElement(s, f, got, es, count, k, p, d, gap + ("]" + rest), ev);
      CountOn(k, |es|);
      q := ReadElements(s, f, got, es, count, Increment(k), p1, d, gap, rest, ev);
    }
  }

  // ---- What has changed on the way

  /** Every event that the tree sends meets the condition. */
  predicate Everywhere(v: Value, p: Event -> bool)
    decreases v
  {
    match v
    case VObject(ms) =>
      p(StartObject) && p(EndObject(|ms|)) && forall m | m in ms :: p(Key(m.name)) && Everywhere(m.value, p)
    case VArray(es) => p(StartArray) && p(EndArray(|es|)) && forall e | e in es :: Everywhere(e, p)
    case _ => p(Events(v)[0])
  }

  ghost predicate All(ev: seq<Event>, p: Event -> bool) { forall e | e in ev :: p(e) }

  lemma {:induction false} EverywhereIsAll(v: Value, p: Event -> bool)
    ensures Everywhere(v, p) <==> All(Events(v), p)
    decreases v, 0
  {
    hide MemberEvents, ElementEvents;
    match v
    case VObject(ms) => MembersAll(ms, p);
    case VArray(es) => ElementsAll(es, p);
    case _ =>
  }

  lemma {:induction false} MembersAll(ms: seq<Member>, p: Event -> bool)
    ensures All(MemberEvents(ms), p) <==> forall m | m in ms :: p(Key(m.name)) && Everywhere(m.value, p)
    decreases ms, 1
  {
    hide Events, Everywhere;
    if ms != [] {
      EverywhereIsAll(ms[0].value, p);
      MembersAll(ms[1..], p);
      assert forall m :: m in ms <==> m == ms[0] || m in ms[1..];
    }
  }

  lemma {:induction false} ElementsAll(es: seq<Value>, p: Event -> bool)
    ensures All(ElementEvents(es), p) <==> forall e | e in es :: Everywhere(e, p)
    decreases es, 1
  {
    hide Events, Everywhere;
    if es != [] {
      EverywhereIsAll(es[0], p);
      ElementsAll(es[1..], p);
      assert forall e :: e in es <==> e == es[0] || e in es[1..];
    }
  }

  /** A count that fits 32 bits, if the event has one. */
  predicate Uncut(e: Event) {
    (e.EndObject? ==> e.memberCount < SIZE_MODULUS) && (e.EndArray? ==> e.elementCount < SIZE_MODULUS)
  }

  /** An integer that the reader delivers in the class in which it was sent. */
  predicate ClassKept(e: Event) {
    IntegerOf(e).Some? ==>
      var n := IntegerOf(e).value;
      e == IntegerEvent(n) ==> n >= -0x8000_0000_0000_0000 && !(0 <= n < 0x8000_0000) && !(0x1_0000_0000 <= n < 0x8000_0000_0000_0000)
  }

  /** No container of the tree has 2^32 entries or more. */
  predicate Small(v: Value) { Everywhere(v, Uncut) }

  /** No integer of the tree lies in [0, 2^31) or in [2^32, 2^63). */
  predicate KeepsClasses(v: Value) { Everywhere(v, ClassKept) }

  /** An event that a tree sends: an integer in the class that `Accept` chooses. */
  predicate FromTree(e: Event) { IntegerOf(e).Some? ==> e == IntegerEvent(IntegerOf(e).value) }

  lemma ReadBackSame(e: Event)
    requires FromTree(e)
    ensures ReadBack(e) == e <==> Uncut(e) && ClassKept(e)
  {
  }

  lemma {:induction false} EventsFromTree(v: Value)
    ensures Everywhere(v, FromTree)
    decreases v
  {
    match v
    case VObject(ms) => forall m | m in ms ensures Everywhere(m.value, FromTree) { EventsFromTree(m.value); }
    case VArray(es) => forall e | e in es ensures Everywhere(e, FromTree) { EventsFromTree(e); }
    case VInteger(n) => assert IntegerOf(IntegerEvent(n)) == Some(n);
    case _ =>
  }

  /** Reading back sends the tree's own events again exactly when no container has 2^32 entries
    * and no integer lies in [0, 2^31) or in [2^32, 2^63): those are sent as signed, and come
    * back as unsigned. */
  lemma SameEventsIff(v: Value)
    ensures Reread(Events(v)) == Events(v) <==> Small(v) && KeepsClasses(v)
  {
    var ev := Events(v);
    hide Events, ReadBack, Uncut, ClassKept, FromTree;
    EventsFromTree(v);
    EverywhereIsAll(v, FromTree);
    EverywhereIsAll(v, Uncut);
    EverywhereIsAll(v, ClassKept);
    forall k | 0 <= k < |ev|
      ensures Reread(ev)[k] == ev[k] <==> Uncut(ev[k]) && ClassKept(ev[k])
    {
      ReadBackSame(ev[k]);
    }
    if Reread(ev) == ev {
      forall e | e in ev ensures Uncut(e) && ClassKept(e) {
        var k :| 0 <= k < |ev| && ev[k] == e;
        assert Reread(ev)[k] == ev[k];
      }
    }
  }

  /** A zero is sent as a signed integer and comes back as an unsigned one. */
  lemma ZeroChangesClass()
    ensures Events(VInteger(0)) == [Int(0)] && Reread(Events(VInteger(0))) == [Uint(0)]
  {
  }

  /** Neither the class of a number nor, if it fits, a count matters to the builder. */
  lemma ReadBackApplies(st: seq<Value>, e: Event)
    requires Uncut(e)
    ensures Apply(st, ReadBack(e)) == Apply(st, e)
  {
    hide Pair;
  }

  lemma {:induction false} RereadBuilds(st: seq<Value>, ev: seq<Event>)
    requires All(ev, Uncut)
    ensures Replay(st, Reread(ev)) == Replay(st, ev)
    decreases |ev|
  {
    hide Apply, ReadBack, Uncut;
    if ev != [] {
      var init := ev[..|ev| - 1];
      assert Reread(ev)[..|ev| - 1] == Reread(init);
      RereadBuilds(st, init);
      var rest := Replay(st, init);
      if rest.Some? { ReadBackApplies(rest.value, ev[|ev| - 1]); }
    }
  }

  /** A count that is cut leaves values on the builder's stack. */
  lemma {:induction false} RereadHeight(ev: seq<Event>)
    ensures C.Height(Reread(ev)) >= C.Height(ev)
    ensures C.Height(Reread(ev)) == C.Height(ev) <==> All(ev, Uncut)
    decreases |ev|
  {
    hide ReadBack, C.Change, Uncut;
    if ev != [] {
      var init, e := ev[..|ev| - 1], ev[|ev| - 1];
      assert Reread(ev)[..|ev| - 1] == Reread(init);
      RereadHeight(init);
      ReadBackChange(e);
      assert forall x :: x in ev <==> x in init || x == e;
    }
  }

  lemma ReadBackChange(e: Event)
    ensures C.Change(ReadBack(e)) >= C.Change(e)
    ensures C.Change(ReadBack(e)) == C.Change(e) <==> Uncut(e)
  {
  }

  /** The events read back rebuild the tree exactly when no container has 2^32 entries, and make no
    * single value otherwise. */
  lemma RebuildsIffSmall(v: Value)
    ensures Replay([], Reread(Events(v))) == Some([v]) <==> Small(v)
    ensures !Small(v) && Replay([], Reread(Events(v))).Some? ==> |Replay([], Reread(Events(v))).value| > 1
  {
    hide Events, Replay, Reread, Uncut, Everywhere;
    var ev := Events(v);
    EverywhereIsAll(v, Uncut);
    AcceptBuilds([], v);
    assert [] + [v] == [v];
    RereadHeight(ev);
    D.ReplayHeight(ev);
    if All(ev, Uncut) {
      RereadBuilds([], ev);
    } else if Replay([], Reread(ev)).Some? {
      D.ReplayHeight(Reread(ev));
    }
  }

  // ---- Strings as the handler gets them

  /** A string or name that reaches the handler as it was. */
  predicate Kept(got: string -> string, e: Event) {
    (e.Key? ==> got(e.k) == e.k) && (e.String? ==> got(e.s) == e.s)
  }

  /** Every string and name of the tree reaches the handler as it was. */
  predicate StringsKept(got: string -> string, v: Value) { Everywhere(v, e => Kept(got, e)) }

  lemma {:induction false} RelayedSame(got: string -> string, v: Value)
    ensures Relayed(got, v) == v <==> StringsKept(got, v)
    decreases v, 0
  {
    hide RelayedMembers, RelayedElements;
    match v
    case VObject(ms) => RelayedMembersSame(got, ms);
    case VArray(es) => RelayedElementsSame(got, es);
    case _ =>
  }

  lemma {:induction false} RelayedMembersSame(got: string -> string, ms: seq<Member>)
    ensures RelayedMembers(got, ms) == ms <==> forall m | m in ms :: got(m.name) == m.name && StringsKept(got, m.value)
    decreases ms, 1
  {
    hide Relayed, Everywhere;
    if ms != [] {
      RelayedSame(got, ms[0].value);
      RelayedMembersSame(got, ms[1..]);
      assert ms == [ms[0]] + ms[1..];
      assert forall m :: m in ms <==> m == ms[0] || m in ms[1..];
    }
  }

  lemma {:induction false} RelayedElementsSame(got: string -> string, es: seq<Value>)
    ensures RelayedElements(got, es) == es <==> forall e | e in es :: StringsKept(got, e)
    decreases es, 1
  {
    hide Relayed, Everywhere;
    if es != [] {
      RelayedSame(got, es[0]);
      RelayedElementsSame(got, es[1..]);
      assert es == [es[0]] + es[1..];
      assert forall e :: e in es <==> e == es[0] || e in es[1..];
    }
  }

  /** The sizes of containers are what they were. */
  lemma {:induction false} RelayedSmall(got: string -> string, v: Value)
    ensures Small(Relayed(got, v)) <==> Small(v)
    decreases v, 0
  {
    hide RelayedMembers, RelayedElements;
    match v
    case VObject(ms) => RelayedMembersSmall(got, ms);
    case VArray(es) => RelayedElementsSmall(got, es);
    case _ =>
  }

  lemma {:induction false} RelayedMembersSmall(got: string -> string, ms: seq<Member>)
    ensures (forall m | m in RelayedMembers(got, ms) :: Small(m.value)) <==> forall m | m in ms :: Small(m.value)
    decreases ms, 1
  {
    hide Relayed, Everywhere;
    if ms != [] {
      RelayedSmall(got, ms[0].value);
      RelayedMembersSmall(got, ms[1..]);
      assert forall m :: m in ms <==> m == ms[0] || m in ms[1..];
    }
  }

  lemma {:induction false} RelayedElementsSmall(got: string -> string, es: seq<Value>)
    ensures (forall e | e in RelayedElements(got, es) :: Small(e)) <==> forall e | e in es :: Small(e)
    decreases es, 1
  {
    hide Relayed, Everywhere;
    if es != [] {
      RelayedSmall(got, es[0]);
      RelayedElementsSmall(got, es[1..]);
      assert forall e :: e in es <==> e == es[0] || e in es[1..];
    }
  }

  /** The events read back rebuild the tree itself exactly when, besides, every string came through. */
  lemma RebuildsSameIff(got: string -> string, v: Value)
    ensures Replay([], Reread(Events(Relayed(got, v)))) == Some([v]) <==> Small(v) && StringsKept(got, v)
  {
    hide Replay, Reread, Events, Relayed, Small, StringsKept;
    var r := Relayed(got, v);
    RelayedSame(got, v);
    RelayedSmall(got, v);
    RebuildsIffSmall(r);
  }

  /** The tree's own events come back exactly when, besides, every string came through. */
  lemma SameEventsKept(got: string -> string, v: Value)
    ensures Reread(Events(Relayed(got, v))) == Events(v) <==> Small(v) && KeepsClasses(v) && StringsKept(got, v)
  {
    hide Replay, Reread, Events, Relayed, Small, StringsKept, KeepsClasses;
    RelayedSame(got, v);
    SameEventsIff(v);
    if Reread(Events(Relayed(got, v))) == Events(v) {
      AcceptBuilds([], v);
      assert [] + [v] == [v];
      RebuildsSameIff(got, v);
    }
  }

  /**
   * For every tree, whatever the sizes of its containers, and every indentation and array style: the parser reads
   * the written text to its end and sends the events of the tree, each string as the handler gets it, each integer in
   * the reader's class and each count modulo 2^32; and those events rebuild the tree exactly when no count is cut and
   * every string came through.
   */
  lemma PrettyRoundTrip(s: Source, f: Format, got: string -> string, v: Value)
    requires Setting(s, f) && Readable(s, f, got, v) && s.text == Print(f, v)
    ensures G.Parse(s) == Ok(|s.text|, Reread(Events(Relayed(got, v))))
    ensures A.IterativeParse(s) == G.Parse(s)
    ensures Replay([], Reread(Events(Relayed(got, v)))) == Some([v]) <==> Small(v) && StringsKept(got, v)
    ensures Reread(Events(Relayed(got, v))) == Events(v) <==> Small(v) && KeepsClasses(v) && StringsKept(got, v)
  {
    RebuildsSameIff(got, v);
    SameEventsKept(got, v);
    ReadsText(s, f, got, v);
  }

  lemma ReadsText(s: Source, f: Format, got: string -> string, v: Value)
    requires Setting(s, f) && Readable(s, f, got, v) && s.text == Print(f, v)
    ensures G.Parse(s) == Ok(|s.text|, Reread(Events(Relayed(got, v))))
    ensures A.IterativeParse(s) == G.Parse(s)
  {
    hide Print, Events, Readable, A.IterativeParse, G.Parse, Reread, Relayed, Sound;
    RecursionReads(s, f, got, v);
    AgreeOnSuccess(s);
  }

  lemma AgreeOnSuccess(s: Source)
    requires Sound(s) && G.Parse(s).Ok?
    ensures A.IterativeParse(s) == G.Parse(s)
  {
    hide A.IterativeParse, G.Parse, Sound;
    E.ParsersAgree(s);
  }

  lemma RecursionReads(s: Source, f: Format, got: string -> string, v: Value)
    requires Setting(s, f) && Readable(s, f, got, v) && s.text == Print(f, v)
    ensures G.Parse(s) == Ok(|s.text|, Reread(Events(Relayed(got, v))))
  {
    hide Skip, Text, Events, Sent, Readable, G.ParseValue, WriteAll, Reread, Relayed, From, Sound;
    PrintIsText(f, v);
    TextHead(s, f, got, v, 0, "");
    assert From(s.text, 0, s.text) by { Whole(s.text); }
    assert s.text == "" + s.text;
    SkipTo(s, 0, "", s.text, []);
    var q := ReadValue(s, f, got, v, 0, 0, "", []);
    SentIsReread(got, [], v);
    assert "" == "" + "";
    SkipTo(s, q, "", "", Sent(got, [], v));
    FromHead(s.text, 0, s.text);
    FromHead(s.text, q, "");
  }

  lemma Whole(text: string)
    ensures From(text, 0, text)
  {
  }
}
