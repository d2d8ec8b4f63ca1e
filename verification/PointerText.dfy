/** JSON pointers as text (RFC 6901): how pointer.h reads and writes the string form and
  * the URI fragment form, and that each reverses the other. */
module PointerText {
  import opened Utf8

  type Text = seq<byte>

  const SOLIDUS: byte := 0x2F
  const TILDE: byte := 0x7E
  const ZERO: byte := 0x30
  const ONE: byte := 0x31
  const HASH: byte := 0x23
  const PERCENT: byte := 0x25

  datatype ErrorCode = TokenMustBeginWithSolidus | InvalidEscape | InvalidPercentEncoding | CharacterMustPercentEncode

  /** One step through a name: the bytes it contributes and what is left to read. Errors
    * carry the length of what was left. */
  datatype Unit = Unit(bytes: Text, rest: Text) | BadUnit(code: ErrorCode, left: nat)
  datatype Name = Name(name: Text, rest: Text) | BadName(code: ErrorCode, left: nat)
  datatype Names = Names(names: seq<Text>) | BadNames(code: ErrorCode, left: nat)

  predicate IsDigit(c: byte) { 0x30 <= c <= 0x39 }

  /** Every character but the unreserved ones of section 2.3 of RFC 3986. */
  predicate NeedPercentEncode(c: byte) {
    !(IsDigit(c) || 0x41 <= c <= 0x5A || 0x61 <= c <= 0x7A || c == 0x2D || c == 0x2E || c == 0x5F || c == TILDE)
  }

  // ---- Percent encoding

  function HexDigit(d: nat): byte
    requires d < 16
  {
    if d < 10 then 0x30 + d else 0x41 + d - 10
  }

  /** The value of a hexadecimal digit; 16 for any other character. */
  function HexValue(h: byte): (d: nat)
    ensures d <= 16
  {
    if 0x30 <= h <= 0x39 then h - 0x30
    else if 0x41 <= h <= 0x46 then h - 0x41 + 10
    else if 0x61 <= h <= 0x66 then h - 0x61 + 10
    else 16
  }

  predicate StartsWithTriplet(s: Text) {
    |s| >= 3 && s[0] == PERCENT && HexValue(s[1]) < 16 && HexValue(s[2]) < 16
  }

  function TripletValue(s: Text): byte
    requires StartsWithTriplet(s)
  {
    HexValue(s[1]) * 16 + HexValue(s[2])
  }

  /** The bytes of the triplets at the start of `s`. */
  function Triplets(s: Text): Text
    decreases |s|
  {
    if StartsWithTriplet(s) then [TripletValue(s)] + Triplets(s[3..]) else []
  }

  function PercentEncode(bytes: Text, rest: Text): Text {
    if bytes == [] then rest
    else [PERCENT, HexDigit(bytes[0] / 16), HexDigit(bytes[0] % 16)] + PercentEncode(bytes[1..], rest)
  }

  // ---- Reading

  /** `c` has been read; a tilde and the character after it stand for one byte. */
  function Unescape(c: byte, rest: Text): Unit {
    if c != TILDE then Unit([c], rest)
    else if rest != [] && rest[0] == ZERO then Unit([TILDE], rest[1..])
    else if rest != [] && rest[0] == ONE then Unit([SOLIDUS], rest[1..])
    else BadUnit(InvalidEscape, |rest|)
  }

  /** The UTF-8 sequence that starts with the first triplet; empty if there is none. */
  function PercentSequence(s: Text): (u: Text)
    ensures 3 * |u| <= |s|
  {
    var t := Triplets(s);
    TripletsLength(s);
    if t == [] then []
    else
      DecodeIsWellFormed(t, 0);
      if Decode(t, 0).ok then t[..Decode(t, 0).next] else []
  }

  function ReadUnit(s: Text, uri: bool): (u: Unit)
    requires s != []
    ensures u.Unit? ==> |u.rest| < |s|
  {
    if uri && s[0] == PERCENT then
      var u := PercentSequence(s);
      if u == [] then BadUnit(InvalidPercentEncoding, |s|)
      else if |u| == 1 then Unescape(u[0], s[3..])
      else Unit(u, s[3 * |u|..])
    else if uri && NeedPercentEncode(s[0]) then BadUnit(CharacterMustPercentEncode, |s|)
    else Unescape(s[0], s[1..])
  }

  predicate AtEnd(s: Text) { s == [] || s[0] == SOLIDUS }

  function ReadName(s: Text, uri: bool): (n: Name)
    ensures n.Name? ==> |n.rest| <= |s| && AtEnd(n.rest)
    decreases |s|
  {
    if AtEnd(s) then Name([], s)
    else
      match ReadUnit(s, uri)
      case BadUnit(code, left) => BadName(code, left)
      case Unit(bytes, rest) =>
        match ReadName(rest, uri)
        case BadName(code, left) => BadName(code, left)
        case Name(name, rest') => Name(bytes + name, rest')
  }

  function ReadNames(s: Text, uri: bool): Names
    requires AtEnd(s)
    decreases |s|
  {
    if s == [] then Names([])
    else
      match ReadName(s[1..], uri)
      case BadName(code, left) => BadNames(code, left)
      case Name(name, rest) =>
        match ReadNames(rest, uri)
        case BadNames(code, left) => BadNames(code, left)
        case Names(names) => Names([name] + names)
  }

  predicate IsUri(s: Text) { s != [] && s[0] == HASH }

  /** The token names of a pointer in either form. */
  function Read(s: Text): Names {
    var body := if IsUri(s) then s[1..] else s;
    if AtEnd(body) then ReadNames(body, IsUri(s)) else BadNames(TokenMustBeginWithSolidus, |body|)
  }

  // ---- Writing

  function Escape(name: Text, rest: Text): Text {
    if name == [] then rest
    else if name[0] == TILDE then [TILDE, ZERO] + Escape(name[1..], rest)
    else if name[0] == SOLIDUS then [TILDE, ONE] + Escape(name[1..], rest)
    else [name[0]] + Escape(name[1..], rest)
  }

  function Write(names: seq<Text>): Text {
    if names == [] then [] else [SOLIDUS] + Escape(names[0], Write(names[1..]))
  }

  datatype Written = NotUtf8Text | Written(text: Text)

  function Prefixed(prefix: Text, w: Written): Written {
    if w.NotUtf8Text? then NotUtf8Text else Written(prefix + w.text)
  }

  function EscapeUri(name: Text, rest: Written): Written
    decreases |name|
  {
    if name == [] then rest
    else if name[0] == TILDE then Prefixed([TILDE, ZERO], EscapeUri(name[1..], rest))
    else if name[0] == SOLIDUS then Prefixed([TILDE, ONE], EscapeUri(name[1..], rest))
    else if NeedPercentEncode(name[0]) then
      DecodeIsWellFormed(name, 0);
      var st := Decode(name, 0);
      if st.ok then Prefixed(PercentEncode(name[..st.next], []), EscapeUri(name[st.next..], rest)) else NotUtf8Text
    else Prefixed([name[0]], EscapeUri(name[1..], rest))
  }

  function WriteUriTokens(names: seq<Text>): Written {
    if names == [] then Written([]) else Prefixed([SOLIDUS], EscapeUri(names[0], WriteUriTokens(names[1..])))
  }

  function WriteUri(names: seq<Text>): Written { Prefixed([HASH], WriteUriTokens(names)) }

  // ---- The string form

  /** Escaping a name and reading it back. */
  lemma {:induction false} ReadEscaped(name: Text, rest: Text)
    requires AtEnd(rest)
    ensures ReadName(Escape(name, rest), false) == Name(name, rest)
    decreases |name|
  {
    if name != [] {
      var s := Escape(name, rest);
      ReadEscaped(name[1..], rest);
      if name[0] == TILDE || name[0] == SOLIDUS {
        assert s[1..][1..] == Escape(name[1..], rest);
      } else {
        assert s[1..] == Escape(name[1..], rest);
      }
      assert [name[0]] + name[1..] == name;
    }
  }

  /** What was read is the escaped form of the name read. */
  lemma {:induction false} EscapeRead(s: Text)
    requires ReadName(s, false).Name?
    ensures s == Escape(ReadName(s, false).name, ReadName(s, false).rest)
    decreases |s|
  {
    if !AtEnd(s) {
      var u := ReadUnit(s, false);
      EscapeRead(u.rest);
      var n := ReadName(u.rest, false);
      assert (u.bytes + n.name)[1..] == n.name;
      if s[0] == TILDE {
        assert s == [s[0], s[1]] + u.rest;
      } else {
        assert s == [s[0]] + u.rest;
      }
    }
  }

  /** Reading the string form of any names gives the names back. */
  lemma {:induction false} ReadWrite(names: seq<Text>)
    ensures AtEnd(Write(names)) && ReadNames(Write(names), false) == Names(names)
    ensures Read(Write(names)) == Names(names)
    decreases |names|
  {
    if names != [] {
      ReadWrite(names[1..]);
      ReadEscaped(names[0], Write(names[1..]));
      assert Write(names)[1..] == Escape(names[0], Write(names[1..]));
      assert [names[0]] + names[1..] == names;
    }
  }

  lemma {:induction false} WriteReadNames(s: Text)
    requires AtEnd(s) && ReadNames(s, false).Names?
    ensures Write(ReadNames(s, false).names) == s
    decreases |s|
  {
    if s != [] {
      var n := ReadName(s[1..], false);
      EscapeRead(s[1..]);
      WriteReadNames(n.rest);
      var names := ReadNames(n.rest, false).names;
      assert ([n.name] + names)[1..] == names;
      assert [SOLIDUS] + s[1..] == s;
    }
  }

  /** Writing what was read from a string-form pointer gives the same text. */
  lemma WriteRead(s: Text)
    requires !IsUri(s) && Read(s).Names?
    ensures Write(Read(s).names) == s
  {
    WriteReadNames(s);
  }

  function Solidi(s: Text): nat { if s == [] then 0 else (if s[0] == SOLIDUS then 1 else 0) + Solidi(s[1..]) }

  lemma {:induction false} UnitSolidi(s: Text, uri: bool)
    requires !AtEnd(s) && ReadUnit(s, uri).Unit?
    ensures Solidi(ReadUnit(s, uri).rest) == Solidi(s)
  {
    var u := ReadUnit(s, uri);
    if uri && s[0] == PERCENT {
      var t := Triplets(s);
      TripletsLength(s);
      DecodeIsWellFormed(t, 0);
      var st := Decode(t, 0);
      SkipTriplets(s, st.next);
      if st.next == 1 && t[0] == TILDE {
        assert Solidi(s[3..]) == Solidi(s[3..][1..]);
      }
    }
  }

  lemma {:induction false} SkipTriplets(s: Text, k: nat)
    requires k <= |Triplets(s)|
    ensures 3 * k <= |s| && Solidi(s[3 * k..]) == Solidi(s)
    decreases k
  {
    if k > 0 {
      SkipTriplets(s[3..], k - 1);
      assert s[3..][3 * (k - 1)..] == s[3 * k..];
      assert s[1..][1..] == s[2..] && s[2..][1..] == s[3..];
      assert Solidi(s) == Solidi(s[1..]) == Solidi(s[2..]) == Solidi(s[3..]);
    } else {
      assert s[3 * k..] == s;
    }
  }

  lemma {:induction false} NameSolidi(s: Text, uri: bool)
    requires ReadName(s, uri).Name?
    ensures Solidi(ReadName(s, uri).rest) == Solidi(s)
    decreases |s|
  {
    if !AtEnd(s) {
      UnitSolidi(s, uri);
      NameSolidi(ReadUnit(s, uri).rest, uri);
    }
  }

  /** A valid pointer has as many tokens as solidi. */
  lemma {:induction false} TokenCount(s: Text, uri: bool)
    requires AtEnd(s) && ReadNames(s, uri).Names?
    ensures |ReadNames(s, uri).names| == Solidi(s)
    decreases |s|
  {
    if s != [] {
      NameSolidi(s[1..], uri);
      TokenCount(ReadName(s[1..], uri).rest, uri);
    }
  }

  // ---- The URI fragment form

  lemma {:induction false} TripletsLength(s: Text)
    ensures 3 * |Triplets(s)| <= |s|
    decreases |s|
  {
    if StartsWithTriplet(s) {
      TripletsLength(s[3..]);
    }
  }

  lemma HexRoundTrip(d: nat)
    requires d < 16
    ensures HexValue(HexDigit(d)) == d && HexDigit(d) != PERCENT && HexDigit(d) != SOLIDUS
  {
  }

  /** The triplets at the start of percent-encoded bytes are those bytes and more. */
  lemma {:induction false} TripletsOfEncoded(bytes: Text, rest: Text)
    ensures bytes <= Triplets(PercentEncode(bytes, rest))
    ensures |PercentEncode(bytes, rest)| == 3 * |bytes| + |rest|
    ensures PercentEncode(bytes, rest)[3 * |bytes|..] == rest
    ensures PercentEncode(bytes, rest) == PercentEncode(bytes, []) + rest
    decreases |bytes|
  {
    if bytes != [] {
      var s := PercentEncode(bytes, rest);
      var t := PercentEncode(bytes[1..], rest);
      TripletsOfEncoded(bytes[1..], rest);
      HexRoundTrip(bytes[0] / 16);
      HexRoundTrip(bytes[0] % 16);
      assert s[3..] == t;
      assert StartsWithTriplet(s) && TripletValue(s) == bytes[0];
      assert s[3 * |bytes|..] == t[3 * |bytes[1..]|..];
    }
  }

  /** Reading one percent-encoded UTF-8 sequence gives its bytes. */
  lemma ReadEncoded(u: Text, rest: Text)
    requires WellFormed(u) && (|u| == 1 ==> u[0] != TILDE)
    ensures PercentEncode(u, rest) != [] && PercentEncode(u, rest)[0] == PERCENT
    ensures ReadUnit(PercentEncode(u, rest), true) == Unit(u, rest)
  {
    hide WellFormed, Decode;
    NonEmpty(u);
    var s := PercentEncode(u, rest);
    var t := Triplets(s);
    TripletsOfEncoded(u, rest);
    assert t[0..|u|] == u;
    DecodeTakes(t, 0, |u|);
    assert t[..|u|] == u;
  }

  /** Reading goes on after a unit. */
  lemma ReadNext(s: Text, u: Unit, name: Text, rest: Text)
    requires !AtEnd(s) && ReadUnit(s, true) == u && u.Unit? && ReadName(u.rest, true) == Name(name, rest)
    ensures ReadName(s, true) == Name(u.bytes + name, rest)
  {
    hide ReadUnit;
  }

  lemma ReadPlain(c: byte, t: Text)
    requires c != SOLIDUS && (c == TILDE || !NeedPercentEncode(c))
    ensures c != TILDE ==> !AtEnd([c] + t) && ReadUnit([c] + t, true) == Unit([c], t)
    ensures c == TILDE ==> !AtEnd([TILDE, ZERO] + t) && ReadUnit([TILDE, ZERO] + t, true) == Unit([TILDE], t)
    ensures c == TILDE ==> !AtEnd([TILDE, ONE] + t) && ReadUnit([TILDE, ONE] + t, true) == Unit([SOLIDUS], t)
  {
    assert ([c] + t)[1..] == t;
    assert ([TILDE, ZERO] + t)[1..][1..] == t && ([TILDE, ONE] + t)[1..][1..] == t;
  }

  lemma {:induction false} ReadEscapedUri(name: Text, rest: Text)
    requires AtEnd(rest) && EscapeUri(name, Written(rest)).Written?
    ensures ReadName(EscapeUri(name, Written(rest)).text, true) == Name(name, rest)
    decreases |name|
  {
    hide Decode, WellFormed, PercentEncode, Triplets, ReadUnit, ReadName;
    if name == [] {
      ReadEnd(rest);
    } else if name[0] != TILDE && name[0] != SOLIDUS && NeedPercentEncode(name[0]) {
      DecodeIsWellFormed(name, 0);
      var k := Decode(name, 0).next;
      var t := EscapeUri(name[k..], Written(rest)).text;
      ReadEscapedUri(name[k..], rest);
      TripletsOfEncoded(name[..k], t);
      assert name[0..k] == name[..k];
      ReadEncoded(name[..k], t);
      ReadNext(PercentEncode(name[..k], t), Unit(name[..k], t), name[k..], rest);
      assert name[..k] + name[k..] == name;
    } else {
      ReadEscapedUri(name[1..], rest);
      var t := EscapeUri(name[1..], Written(rest)).text;
      ReadPlain(if name[0] == SOLIDUS then TILDE else name[0], t);
      ReadNext(EscapeUri(name, Written(rest)).text, Unit([name[0]], t), name[1..], rest);
      assert [name[0]] + name[1..] == name;
    }
  }

  lemma ReadEnd(rest: Text)
    requires AtEnd(rest)
    ensures ReadName(rest, true) == Name([], rest)
  {
  }

  lemma {:induction false} ReadWriteUriTokens(names: seq<Text>)
    requires WriteUriTokens(names).Written?
    ensures AtEnd(WriteUriTokens(names).text) && ReadNames(WriteUriTokens(names).text, true) == Names(names)
    decreases |names|
  {
    hide EscapeUri;
    if names != [] {
      FailedStays(names[0], WriteUriTokens(names[1..]));
      ReadWriteUriTokens(names[1..]);
      ReadEscapedUri(names[0], WriteUriTokens(names[1..]).text);
      assert WriteUriTokens(names).text[1..] == EscapeUri(names[0], WriteUriTokens(names[1..])).text;
      assert [names[0]] + names[1..] == names;
    }
  }

  lemma {:induction false} FailedStays(name: Text, rest: Written)
    ensures rest.NotUtf8Text? ==> EscapeUri(name, rest).NotUtf8Text?
    decreases |name|
  {
    if name != [] {
      DecodeIsWellFormed(name, 0);
      FailedStays(name[1..], rest);
      if Decode(name, 0).ok {
        FailedStays(name[Decode(name, 0).next..], rest);
      }
    }
  }

  /** A well-formed sequence in front changes nothing about the rest being UTF-8. */
  lemma Utf8Prefix(u: Text, s: Text)
    requires WellFormed(u)
    ensures IsUtf8(u + s) <==> IsUtf8(s)
  {
    hide WellFormed;
    var t := u + s;
    NonEmpty(u);
    WellFormedLength(u);
    assert t[..|u|] == u && t[|u|..] == s;
    forall k | 1 <= k <= 4 && k <= |t| && WellFormed(t[..k])
      ensures k == |u|
    {
      LengthByFirstByte(t, k, |u|);
    }
  }

  lemma WellFormedLength(u: Text)
    requires WellFormed(u)
    ensures 1 <= |u| <= 4
  {
  }

  /** Writing a name in a URI fragment succeeds exactly when the name is UTF-8. */
  lemma {:induction false} EscapesIffUtf8(name: Text, rest: Text)
    ensures EscapeUri(name, Written(rest)).Written? <==> IsUtf8(name)
    decreases |name|
  {
    hide WellFormed, Decode;
    if name != [] {
      if name[0] != TILDE && name[0] != SOLIDUS && NeedPercentEncode(name[0]) {
        DecodeIsWellFormed(name, 0);
        var st := Decode(name, 0);
        if st.ok {
          EscapesIffUtf8(name[st.next..], rest);
          Utf8Prefix(name[0..st.next], name[st.next..]);
          assert name[0..st.next] + name[st.next..] == name;
        } else {
          NotUtf8(name);
        }
      } else {
        EscapesIffUtf8(name[1..], rest);
        Ascii(name[0]);
        Utf8Prefix([name[0]], name[1..]);
        assert [name[0]] + name[1..] == name;
      }
    }
  }

  lemma Ascii(c: byte)
    requires c <= 0x7F
    ensures WellFormed([c])
  {
  }

  lemma NotUtf8(s: Text)
    requires s != [] && !Decode(s, 0).ok
    ensures !IsUtf8(s)
  {
    hide WellFormed, Decode;
    forall k | 1 <= k <= 4 && k <= |s| && WellFormed(s[..k])
      ensures false
    {
      assert s[..k] == s[0..0 + k];
      DecodeTakes(s, 0, k);
    }
  }

  lemma {:induction false} WritesIffUtf8(names: seq<Text>)
    ensures WriteUriTokens(names).Written? <==> forall k :: 0 <= k < |names| ==> IsUtf8(names[k])
    decreases |names|
  {
    hide EscapeUri, IsUtf8;
    if names != [] {
      var rest := WriteUriTokens(names[1..]);
      WritesIffUtf8(names[1..]);
      assert forall k :: 0 <= k < |names[1..]| ==> names[1..][k] == names[k + 1];
      if rest.NotUtf8Text? {
        FailedStays(names[0], rest);
        var k :| 0 <= k < |names[1..]| && !IsUtf8(names[1..][k]);
        assert !IsUtf8(names[k + 1]);
      } else {
        EscapesIffUtf8(names[0], rest.text);
        assert forall k :: 1 <= k < |names| ==> IsUtf8(names[k]) by {
          forall k | 1 <= k < |names| ensures IsUtf8(names[k]) {
            assert names[k] == names[1..][k - 1];
          }
        }
      }
    }
  }

  /** The URI fragment form exists exactly for names that are UTF-8, and reading it gives
    * the names back. */
  lemma UriRoundTrip(names: seq<Text>)
    ensures WriteUri(names).Written? <==> forall k :: 0 <= k < |names| ==> IsUtf8(names[k])
    ensures WriteUri(names).Written? ==> Read(WriteUri(names).text) == Names(names)
  {
    WritesIffUtf8(names);
    if WriteUri(names).Written? {
      ReadWriteUriTokens(names);
      assert WriteUri(names).text[1..] == WriteUriTokens(names).text;
    }
  }

  /** Every step through a URI fragment contributes well-formed UTF-8. */
  lemma UriUnitIsWellFormed(s: Text)
    requires !AtEnd(s) && ReadUnit(s, true).Unit?
    ensures WellFormed(ReadUnit(s, true).bytes)
  {
    hide Decode;
    if s[0] == PERCENT {
      var t := Triplets(s);
      TripletsLength(s);
      DecodeIsWellFormed(t, 0);
      assert t[0..Decode(t, 0).next] == t[..Decode(t, 0).next];
    }
  }

  lemma {:induction false} UriNameIsUtf8(s: Text)
    requires ReadName(s, true).Name?
    ensures IsUtf8(ReadName(s, true).name)
    decreases |s|
  {
    hide ReadUnit, WellFormed;
    if !AtEnd(s) {
      UriUnitIsWellFormed(s);
      var u := ReadUnit(s, true);
      UriNameIsUtf8(u.rest);
      Utf8Prefix(u.bytes, ReadName(u.rest, true).name);
    }
  }

  lemma {:induction false} UriNamesAreUtf8(s: Text)
    requires AtEnd(s) && ReadNames(s, true).Names?
    ensures forall k :: 0 <= k < |ReadNames(s, true).names| ==> IsUtf8(ReadNames(s, true).names[k])
    decreases |s|
  {
    hide IsUtf8;
    if s != [] {
      UriNameIsUtf8(s[1..]);
      UriNamesAreUtf8(ReadName(s[1..], true).rest);
    }
  }

  /** A URI fragment that was read can be written again, in a normal form that reads as the
    * same names. */
  lemma UriNormalForm(s: Text)
    requires IsUri(s) && Read(s).Names?
    ensures WriteUri(Read(s).names).Written? && Read(WriteUri(Read(s).names).text) == Read(s)
  {
    UriNamesAreUtf8(s[1..]);
    UriRoundTrip(Read(s).names);
  }
}
