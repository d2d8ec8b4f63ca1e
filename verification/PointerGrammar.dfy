/** JSON pointers by the grammar of RFC 6901 and, in a URI fragment, of RFC 3986; and that exactly those are read. */
module PointerGrammar {
  import opened Utf8
  import opened PointerText
  import C = Characters

  /** The unreserved characters of section 2.3 of RFC 3986. */
  predicate Unreserved(c: byte) {
    var ch := c as char;
    ch in C.CAPITALS || ch in C.SMALL || ch in C.DECIMAL || ch in "-._~"
  }

  /** A byte as a percent sign and two hexadecimal digits, of either case. */
  predicate IsTriplet(w: Text, c: byte) {
    && |w| == 3 && w[0] == 0x25 && C.IsHex(w[1] as char) && C.IsHex(w[2] as char)
    && c == 16 * C.HexDigit(w[1] as char) + C.HexDigit(w[2] as char)
  }

  predicate AreTriplets(w: Text, u: Text) {
    if u == [] then w == [] else |w| >= 3 && IsTriplet(w[..3], u[0]) && AreTriplets(w[3..], u[1..])
  }

  /** The bytes `u` may be written so: one byte as itself, in a fragment if it is unreserved; in a fragment also a
    * character of UTF-8 by its triplets. */
  predicate Writes(w: Text, u: Text, uri: bool) {
    || (|u| == 1 && w == u && u[0] != 0x2F && (uri ==> Unreserved(u[0])))
    || (uri && WellFormed(u) && AreTriplets(w, u))
  }

  /** Part of a token: bytes other than a tilde, or a tilde with the digit behind it. */
  datatype Item = Direct(w: Text, u: Text) | Tilde(w: Text, digit: byte)

  predicate Valid(i: Item, uri: bool) {
    match i
    case Direct(w, u) => Writes(w, u, uri) && u != [0x7E]
    case Tilde(w, digit) => Writes(w, [0x7E], uri) && (digit == 0x30 || digit == 0x31)
  }

  function Spelling(i: Item): Text {
    match i
    case Direct(w, _) => w
    case Tilde(w, digit) => w + [digit]
  }

  /** Section 3 of RFC 6901: the digit zero stands for the tilde, one for the solidus. */
  function Meaning(i: Item): Text {
    match i
    case Direct(_, u) => u
    case Tilde(_, digit) => if digit == 0x30 then [0x7E] else [0x2F]
  }

  function NameText(items: seq<Item>): Text {
    if items == [] then [] else Spelling(items[0]) + NameText(items[1..])
  }

  function NameOf(items: seq<Item>): Text {
    if items == [] then [] else Meaning(items[0]) + NameOf(items[1..])
  }

  predicate ValidName(items: seq<Item>, uri: bool) { forall i | i in items :: Valid(i, uri) }

  /** Each name behind a solidus. */
  function PointerTextOf(names: seq<seq<Item>>): Text {
    if names == [] then [] else [0x2F] + NameText(names[0]) + PointerTextOf(names[1..])
  }

  function NamesOf(names: seq<seq<Item>>): (ns: seq<Text>)
    ensures |ns| == |names|
  {
    if names == [] then [] else [NameOf(names[0])] + NamesOf(names[1..])
  }

  predicate ValidPointer(names: seq<seq<Item>>, uri: bool) { forall n | n in names :: ValidName(n, uri) }

  /** The text is a pointer with these names; a fragment begins with a number sign. */
  ghost predicate IsPointer(s: Text, ns: seq<Text>) {
    exists uri, names :: Denotes(s, uri, names, ns)
  }

  ghost predicate Denotes(s: Text, uri: bool, names: seq<seq<Item>>, ns: seq<Text>) {
    ValidPointer(names, uri) && s == (if uri then [0x23] else []) + PointerTextOf(names) && ns == NamesOf(names)
  }

  // ---- Characters

  lemma UnreservedIs(c: byte)
    ensures Unreserved(c) <==> !NeedPercentEncode(c)
  {
    C.CapitalIs(c as char);
    C.SmallIs(c as char);
    C.DecimalIs(c as char);
  }

  lemma HexIs(h: byte)
    ensures HexValue(h) == if C.IsHex(h as char) then C.HexDigit(h as char) else 16
  {
    C.HexIs(h as char);
  }

  /** The digits that the writer uses are capitals. */
  lemma WrittenDigit(d: nat)
    requires d < 16
    ensures HexDigit(d) as char == C.UPPER_HEX[d]
  {
  }

  lemma TripletIs(s: Text)
    requires |s| >= 3
    ensures StartsWithTriplet(s) ==> IsTriplet(s[..3], TripletValue(s))
    ensures forall c | IsTriplet(s[..3], c) :: StartsWithTriplet(s) && c == TripletValue(s)
  {
    HexIs(s[1]);
    HexIs(s[2]);
  }

  // ---- What is spelled is read

  lemma {:induction false} TripletsRead(w: Text, u: Text, rest: Text)
    requires AreTriplets(w, u)
    ensures |w| == 3 * |u| && u <= Triplets(w + rest)
    decreases |u|
  {
    hide IsTriplet, StartsWithTriplet, TripletValue;
    if u != [] {
      var s := w + rest;
      TripletsRead(w[3..], u[1..], rest);
      assert s[..3] == w[..3] && s[3..] == w[3..] + rest;
      TripletIs(s);
    }
  }

  /** Reading a UTF-8 sequence of triplets gives its bytes. */
  lemma SequenceRead(w: Text, u: Text, rest: Text)
    requires WellFormed(u) && AreTriplets(w, u)
    ensures w != [] && w[0] == PERCENT && |w| == 3 * |u| && PercentSequence(w + rest) == u
  {
    hide WellFormed, Decode, Triplets, IsTriplet;
    NonEmpty(u);
    TripletsRead(w, u, rest);
    FirstPercent(w, u);
    var t := Triplets(w + rest);
    assert t[0..0 + |u|] == u;
    DecodeTakes(t, 0, |u|);
    assert t[..|u|] == u;
  }

  lemma FirstPercent(w: Text, u: Text)
    requires u != [] && AreTriplets(w, u)
    ensures w != [] && w[0] == PERCENT
  {
  }

  lemma ItemRead(i: Item, rest: Text, uri: bool)
    requires Valid(i, uri)
    ensures var s := Spelling(i) + rest; !AtEnd(s) && ReadUnit(s, uri) == Unit(Meaning(i), rest)
  {
    hide WellFormed, AreTriplets, Unreserved, NeedPercentEncode, PercentSequence;
    var u := if i.Direct? then i.u else [TILDE];
    var tail := if i.Direct? then rest else [i.digit] + rest;
    var s := i.w + tail;
    assert Spelling(i) + rest == s;
    if |u| == 1 && i.w == u && u[0] != SOLIDUS && (uri ==> Unreserved(u[0])) {
      UnreservedIs(u[0]);
      PercentIsReserved();
      assert s[1..] == tail && (i.Tilde? ==> tail[1..] == rest);
    } else {
      SequenceRead(i.w, u, tail);
      assert s[3 * |u|..] == tail && (|u| == 1 ==> s[3..] == tail) && (i.Tilde? ==> tail[1..] == rest);
    }
  }

  lemma PercentIsReserved()
    ensures !Unreserved(PERCENT)
  {
    C.CapitalIs(PERCENT as char);
    C.SmallIs(PERCENT as char);
    C.DecimalIs(PERCENT as char);
  }

  lemma {:induction false} NameRead(items: seq<Item>, rest: Text, uri: bool)
    requires ValidName(items, uri) && AtEnd(rest)
    ensures ReadName(NameText(items) + rest, uri) == Name(NameOf(items), rest)
    decreases |items|
  {
    hide Valid, Spelling, Meaning, ReadUnit;
    if items == [] {
      assert [] + rest == rest;
    } else {
      var i, s := items[0], NameText(items) + rest;
      var more := NameText(items[1..]) + rest;
      assert s == Spelling(i) + more;
      ItemRead(i, more, uri);
      NameRead(items[1..], rest, uri);
    }
  }

  lemma {:induction false} NamesRead(names: seq<seq<Item>>, uri: bool)
    requires ValidPointer(names, uri)
    ensures AtEnd(PointerTextOf(names)) && ReadNames(PointerTextOf(names), uri) == Names(NamesOf(names))
    decreases |names|
  {
    hide ValidName, NameText, NameOf, ReadName, ReadNames, AtEnd;
    if names == [] {
      NoNamesRead(uri);
    } else {
      var first, rest := NameText(names[0]), PointerTextOf(names[1..]);
      NamesRead(names[1..], uri);
      NameRead(names[0], rest, uri);
      assert PointerTextOf(names) == [SOLIDUS] + (first + rest);
      FirstNameRead(first + rest, NameOf(names[0]), rest, NamesOf(names[1..]), uri);
    }
  }

  lemma NoNamesRead(uri: bool)
    ensures AtEnd([]) && ReadNames([], uri) == Names([])
  {
  }

  lemma FirstNameRead(t: Text, name: Text, rest: Text, names: seq<Text>, uri: bool)
    requires ReadName(t, uri) == Name(name, rest) && AtEnd(rest) && ReadNames(rest, uri) == Names(names)
    ensures AtEnd([SOLIDUS] + t) && ReadNames([SOLIDUS] + t, uri) == Names([name] + names)
  {
    hide ReadName;
    assert ([SOLIDUS] + t)[1..] == t;
  }

  // ---- What is read is spelled

  lemma {:induction false} ReadTriplets(s: Text, k: nat)
    requires k <= |Triplets(s)|
    ensures 3 * k <= |s| && AreTriplets(s[..3 * k], Triplets(s)[..k])
    decreases k
  {
    hide IsTriplet, StartsWithTriplet, TripletValue;
    if k > 0 {
      assert StartsWithTriplet(s) && |s| >= 3 by { TripletStarts(s); }
      ReadTriplets(s[3..], k - 1);
      TripletIs(s);
      var w := s[..3 * k];
      assert w[..3] == s[..3] && w[3..] == s[3..][..3 * (k - 1)];
      assert Triplets(s)[..k][1..] == Triplets(s[3..])[..k - 1];
    }
  }

  lemma TripletStarts(s: Text)
    requires Triplets(s) != []
    ensures StartsWithTriplet(s) && |s| >= 3
  {
  }

  lemma ReadSequence(s: Text)
    requires PercentSequence(s) != []
    ensures var u := PercentSequence(s); WellFormed(u) && 3 * |u| <= |s| && AreTriplets(s[..3 * |u|], u)
  {
    hide WellFormed, Decode;
    var t := Triplets(s);
    DecodeIsWellFormed(t, 0);
    var k := Decode(t, 0).next;
    assert t[0..k] == t[..k];
    ReadTriplets(s, k);
  }

  lemma ReadItem(s: Text, uri: bool) returns (i: Item)
    requires !AtEnd(s) && ReadUnit(s, uri).Unit?
    ensures Valid(i, uri) && s == Spelling(i) + ReadUnit(s, uri).rest && Meaning(i) == ReadUnit(s, uri).bytes
  {
    hide WellFormed, AreTriplets, Unreserved, NeedPercentEncode, PercentSequence;
    var w, u;
    if uri && s[0] == PERCENT {
      u := PercentSequence(s);
      ReadSequence(s);
      w := s[..3 * |u|];
    } else {
      u := [s[0]];
      w := s[..1];
      UnreservedIs(s[0]);
      assert w == u;
    }
    if u == [TILDE] {
      i := Tilde(w, s[|w|]);
      assert s == w + [s[|w|]] + s[|w|..][1..];
    } else {
      i := Direct(w, u);
      assert s == w + s[|w|..];
    }
  }

  lemma ReadNameStep(s: Text, uri: bool)
    requires ReadName(s, uri).Name? && !AtEnd(s)
    ensures ReadUnit(s, uri).Unit?
    ensures var u := ReadUnit(s, uri);
      |u.rest| < |s| && ReadName(u.rest, uri).Name? &&
      ReadName(s, uri) == Name(u.bytes + ReadName(u.rest, uri).name, ReadName(u.rest, uri).rest)
  {
    hide ReadUnit;
  }

  lemma {:induction false} ReadNameItems(s: Text, uri: bool) returns (items: seq<Item>)
    requires ReadName(s, uri).Name?
    ensures ValidName(items, uri) && s == NameText(items) + ReadName(s, uri).rest && NameOf(items) == ReadName(s, uri).name
    decreases |s|
  {
    hide Valid, Spelling, Meaning, ReadUnit, ReadName, AtEnd;
    if AtEnd(s) {
      items := [];
      NothingRead(s, uri);
      assert [] + s == s;
    } else {
      ReadNameStep(s, uri);
      var i := ReadItem(s, uri);
      var rest := ReadNameItems(ReadUnit(s, uri).rest, uri);
      items := [i] + rest;
      assert items[1..] == rest;
      Regroup(Spelling(i), NameText(rest), ReadName(s, uri).rest);
    }
  }

  lemma NothingRead(s: Text, uri: bool)
    requires AtEnd(s)
    ensures ReadName(s, uri) == Name([], s)
  {
  }

  lemma Regroup(a: Text, b: Text, c: Text)
    ensures a + (b + c) == (a + b) + c
  {
  }

  lemma {:induction false} ReadNamesItems(s: Text, uri: bool) returns (names: seq<seq<Item>>)
    requires AtEnd(s) && ReadNames(s, uri).Names?
    ensures ValidPointer(names, uri) && s == PointerTextOf(names) && NamesOf(names) == ReadNames(s, uri).names
    decreases |s|
  {
    hide ValidName, NameText, NameOf, ReadName;
    names := [];
    if s != [] {
      var first := ReadNameItems(s[1..], uri);
      var rest := ReadNamesItems(ReadName(s[1..], uri).rest, uri);
      names := [first] + rest;
      assert names[1..] == rest;
      assert s == [SOLIDUS] + s[1..];
    }
  }

  /**
   * Exactly the pointers of the grammar are read, each with its names. In a fragment a solidus that is written as a
   * triplet belongs to a name, and the digit behind a tilde must stand as itself.
   */
  lemma ReadsExactlyPointers(s: Text, ns: seq<Text>)
    ensures Read(s) == Names(ns) <==> IsPointer(s, ns)
  {
    hide ReadNames, ValidPointer, PointerTextOf, NamesOf;
    if Read(s) == Names(ns) {
      var uri := IsUri(s);
      var body := if uri then s[1..] else s;
      var names := ReadNamesItems(body, uri);
      assert s == (if uri then [HASH] else []) + body;
      assert Denotes(s, uri, names, ns);
    }
    forall uri, names | Denotes(s, uri, names, ns)
      ensures Read(s) == Names(ns)
    {
      NamesRead(names, uri);
      var body := PointerTextOf(names);
      assert if uri then s[1..] == body else s == body;
    }
  }
}
