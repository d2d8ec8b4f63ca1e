/** The base64 codec of bin2ascii.h, against sections 3.2 and 4 of RFC 4648. */
module Base64 {
  import opened Utf8
  import opened Characters

  type Bytes = seq<byte>

  const PAD: byte := 0x3D

  // ---- The encoding of the standard

  /** The base64 alphabet. */
  function Digit(n: nat): (c: byte)
    requires n < 64
    ensures c != PAD
  {
    if n < 26 then 0x41 + n
    else if n < 52 then 0x61 + n - 26
    else if n < 62 then 0x30 + n - 52
    else if n == 62 then 0x2B
    else 0x2F
  }

  /** The first `k` digits of a group of three bytes, six bits each. */
  function Group(a: byte, b: byte, c: byte, k: nat): (g: Bytes)
    requires 2 <= k <= 4
    ensures |g| == k
  {
    [Digit(a / 4), Digit(a % 4 * 16 + b / 16)] +
    (if k > 2 then [Digit(b % 16 * 4 + c / 64)] else []) +
    (if k > 3 then [Digit(c % 64)] else [])
  }

  function Pads(n: nat): (p: Bytes)
    ensures |p| == n && forall i :: 0 <= i < n ==> p[i] == PAD
  {
    if n == 0 then [] else [PAD] + Pads(n - 1)
  }

  /** Groups of three bytes as four digits; a last group of one or two bytes as two or three
    * digits and, unless stripped, padding. */
  function Encoded(s: Bytes, strip: bool): Bytes
    decreases |s|
  {
    if |s| == 0 then []
    else if |s| == 1 then Group(s[0], 0, 0, 2) + if strip then [] else Pads(2)
    else if |s| == 2 then Group(s[0], s[1], 0, 3) + if strip then [] else Pads(1)
    else Group(s[0], s[1], s[2], 4) + Encoded(s[3..], strip)
  }

  // ---- The encoder

  /** The four digits that the encoder cuts out of a 24-bit number are those of the group. */
  lemma Regroup(a: byte, b: byte, c: byte)
    ensures var n := a * 65536 + b * 256 + c;
            && n / 262144 % 64 == a / 4 && n / 4096 % 64 == a % 4 * 16 + b / 16
            && n / 64 % 64 == b % 16 * 4 + c / 64 && n % 64 == c % 64
  {
    var n := a * 65536 + b * 256 + c;
    Halved(a, b);
    Halved2(b, c);
    assert n == (a / 4) * 262144 + ((a % 4) * 16 + b / 16) * 4096 + ((b % 16) * 4 + c / 64) * 64 + c % 64;
    FourDigits(a / 4, a % 4 * 16 + b / 16, b % 16 * 4 + c / 64, c % 64);
  }

  lemma Halved(a: byte, b: byte)
    ensures (a / 4) * 262144 + ((a % 4) * 16 + b / 16) * 4096 + b % 16 * 256 == a * 65536 + b * 256
  {
    assert a == a / 4 * 4 + a % 4;
    assert b == b / 16 * 16 + b % 16;
  }

  lemma Halved2(b: byte, c: byte)
    ensures ((b % 16) * 4 + c / 64) * 64 + c % 64 == b % 16 * 256 + c
  {
    assert c == c / 64 * 64 + c % 64;
  }

  lemma FourDigits(p: nat, q: nat, r: nat, s: nat)
    requires p < 64 && q < 64 && r < 64 && s < 64
    ensures var n := p * 262144 + q * 4096 + r * 64 + s;
            n / 262144 % 64 == p && n / 4096 % 64 == q && n / 64 % 64 == r && n % 64 == s
  {
    var n := p * 262144 + q * 4096 + r * 64 + s;
    assert n / 64 == p * 4096 + q * 64 + r;
    assert n / 4096 == n / 64 / 64 == p * 64 + q;
    assert n / 262144 == n / 4096 / 64 == p;
  }

  /** One turn of the encoder's loop. */
  method EncodeGroup(s: Bytes, i: nat) returns (r: Bytes)
    requires i < |s|
    ensures var b: byte := if i + 1 < |s| then s[i + 1] else 0;
            var c: byte := if i + 2 < |s| then s[i + 2] else 0;
            r == Group(s[i], b, c, if i + 2 < |s| then 4 else if i + 1 < |s| then 3 else 2)
  {
    hide Digit;
    var b0: nat := s[i];
    var n := b0 * 65536;
    if i + 1 < |s| { var b1: nat := s[i + 1]; n := n + b1 * 256; }
    if i + 2 < |s| { n := n + s[i + 2]; }
    ghost var b: byte := if i + 1 < |s| then s[i + 1] else 0;
    ghost var c: byte := if i + 2 < |s| then s[i + 2] else 0;
    Regroup(s[i], b, c);
    var n0, n1, n2, n3 := n / 262144 % 64, n / 4096 % 64, n / 64 % 64, n % 64;
    r := [Digit(n0)];
    r := r + [Digit(n1)];
    if i + 1 < |s| { r := r + [Digit(n2)]; }
    if i + 2 < |s| { r := r + [Digit(n3)]; }
  }

  /** `b64_encode`. */
  method Encode(s: Bytes, strip: bool) returns (r: Bytes)
    ensures r == Encoded(s, strip)
  {
    hide Group;
    r := [];
    var i := 0;
    assert s[0..] == s;
    while i < |s|
      invariant 0 <= i && (i <= |s| ==> r + Encoded(s[i..], true) == Encoded(s, true)) && (i > |s| ==> r == Encoded(s, true))
      invariant i <= |s| + 2 && i % 3 == 0
    {
      ghost var r0, rest := r, s[i..];
      var digits := EncodeGroup(s, i);
      r := r + digits;
      NextGroup(r0, rest);
      if i + 2 < |s| { assert rest[3..] == s[i + 3..]; }
      i := i + 3;
    }
    if i <= |s| { assert s[i..] == []; }
    Padding(s);
    if !strip {
      var j := 0;
      var pads := (3 - |s| % 3) % 3;
      while j < pads
        invariant 0 <= j <= pads && r == Encoded(s, true) + Pads(j)
      {
        PadsSnoc(j);
        r := r + [PAD];
        j := j + 1;
      }
    }
  }

  lemma NextGroup(r: Bytes, s: Bytes)
    requires s != []
    ensures var b: byte := if |s| > 1 then s[1] else 0;
            var c: byte := if |s| > 2 then s[2] else 0;
            var k := if |s| > 2 then 4 else if |s| > 1 then 3 else 2;
            r + Encoded(s, true) == if |s| > 2 then (r + Group(s[0], b, c, k)) + Encoded(s[3..], true) else r + Group(s[0], b, c, k)
  {
    hide Group;
    var b: byte := if |s| > 1 then s[1] else 0;
    var c: byte := if |s| > 2 then s[2] else 0;
    var g := Group(s[0], b, c, if |s| > 2 then 4 else if |s| > 1 then 3 else 2);
    Associate(r, g, if |s| > 2 then Encoded(s[3..], true) else []);
  }

  lemma Associate(r: Bytes, g: Bytes, rest: Bytes)
    ensures r + (g + rest) == (r + g) + rest
    ensures g + [] == g
  {
  }

  lemma PadsSnoc(n: nat)
    ensures Pads(n) + [PAD] == Pads(n + 1)
  {
  }

  /** The padded form is the stripped form and the padding of the standard. */
  lemma {:induction false} Padding(s: Bytes)
    ensures Encoded(s, false) == Encoded(s, true) + Pads((3 - |s| % 3) % 3)
    decreases |s|
  {
    hide Group;
    if |s| > 2 {
      Padding(s[3..]);
      assert |s[3..]| % 3 == |s| % 3;
      var g := Group(s[0], s[1], s[2], 4);
      var p := Pads((3 - |s| % 3) % 3);
      assert g + (Encoded(s[3..], true) + p) == (g + Encoded(s[3..], true)) + p;
    }
  }

  /** Four characters for every three bytes begun; stripped, four thirds rounded up. */
  lemma {:induction false} EncodedLength(s: Bytes)
    ensures |Encoded(s, false)| == (|s| + 2) / 3 * 4
    ensures |Encoded(s, true)| == (4 * |s| + 2) / 3
    decreases |s|
  {
    hide Group;
    if |s| > 2 {
      EncodedLength(s[3..]);
      assert |s| == |s[3..]| + 3;
      assert |Encoded(s, true)| == 4 + |Encoded(s[3..], true)|;
    }
  }

  // ---- The alphabet

  /** Table 1 of section 4 of RFC 4648. */
  const ALPHABET := CAPITALS + SMALL + DECIMAL + "+/"

  /** The digits are the characters of the table, and the decoder gives each its place there. */
  lemma DigitIsTable(n: nat)
    requires n < 64
    ensures Digit(n) as char == ALPHABET[n] && Lookup(Digit(n)) == n
  {
    hide Digit, Lookup;
    if n < 26 { CapitalDigits(n); } else if n < 52 { SmallDigits(n - 26); } else { OtherDigits(n); }
    DigitValue(n);
  }

  lemma CapitalDigits(n: nat)
    requires n < 26
    ensures Digit(n) as char == CAPITALS[n]
  {
    CapitalAt(n);
  }

  lemma SmallDigits(n: nat)
    requires n < 26
    ensures Digit(26 + n) as char == SMALL[n]
  {
    SmallAt(n);
  }

  lemma OtherDigits(n: nat)
    requires 52 <= n < 64
    ensures Digit(n) as char == (DECIMAL + "+/")[n - 52]
  {
  }

  /** What is in the decoder's table: the alphabet, and the padding character, read as zero. */
  lemma LookupIsTable(c: byte)
    ensures Lookup(c) != 0x80 <==> c == PAD || c as char in ALPHABET
    ensures Lookup(PAD) == 0
  {
    hide Lookup;
    forall n: nat | n < 64 ensures ALPHABET[n] == Digit(n) as char && Lookup(Digit(n)) == n { DigitIsTable(n); }
    LookupInverse(c);
    assert c as char in ALPHABET ==> exists n: nat :: n < 64 && ALPHABET[n] == c as char;
  }

  lemma LookupInverse(c: byte)
    ensures Lookup(c) != 0x80 && c != PAD ==> Lookup(c) < 64 && Digit(Lookup(c)) == c
    ensures Lookup(PAD) == 0
  {
  }

  // ---- The decoder

  /** The decoder's table: the value of a digit, nothing but zero for the padding character
    * wherever it stands, and 0x80 for any other character. */
  function Lookup(c: byte): (n: nat)
    ensures n < 64 || n == 0x80
  {
    if c == 0x2B then 62
    else if c == 0x2F then 63
    else if 0x30 <= c <= 0x39 then c - 0x30 + 52
    else if c == PAD then 0
    else if 0x41 <= c <= 0x5A then c - 0x41
    else if 0x61 <= c <= 0x7A then c - 0x61 + 26
    else 0x80
  }

  datatype Result = Ok(bytes: Bytes) | InvalidSize | InvalidData(at: nat)

  predicate IsData(s: Bytes) { forall i :: 0 <= i < |s| ==> Lookup(s[i]) != 0x80 }

  /** The bytes of four characters of data. */
  function Quad(s: Bytes): Bytes
    requires |s| == 4 && IsData(s)
  {
    var n0, n1, n2, n3 := Lookup(s[0]), Lookup(s[1]), Lookup(s[2]), Lookup(s[3]);
    [n0 * 4 + n1 / 16] +
    (if s[2] != PAD then [n1 % 16 * 16 + n2 / 4] else []) +
    (if s[3] != PAD then [n2 % 4 * 64 + n3] else [])
  }

  /** The bytes of whole groups of data. */
  function Decoded(s: Bytes): Bytes
    requires |s| % 4 == 0 && IsData(s)
    decreases |s|
  {
    if s == [] then [] else Quad(s[..4]) + Decoded(s[4..])
  }

  /** The bytes that the decoder cuts out of its 24-bit number. */
  lemma Ungroup(n0: nat, n1: nat, n2: nat, n3: nat)
    requires n0 < 64 && n1 < 64 && n2 < 64 && n3 < 64
    ensures var n := n0 * 262144 + n1 * 4096 + n2 * 64 + n3;
            && n / 65536 % 256 == n0 * 4 + n1 / 16
            && n / 256 % 256 == n1 % 16 * 16 + n2 / 4
            && n % 256 == n2 % 4 * 64 + n3
  {
    Regroup4(n0, n1, n2, n3);
    Bytes3(n0 * 4 + n1 / 16, n1 % 16 * 16 + n2 / 4, n2 % 4 * 64 + n3);
  }

  lemma Regroup4(n0: nat, n1: nat, n2: nat, n3: nat)
    ensures n0 * 262144 + n1 * 4096 + n2 * 64 + n3 ==
      (n0 * 4 + n1 / 16) * 65536 + (n1 % 16 * 16 + n2 / 4) * 256 + (n2 % 4 * 64 + n3)
  {
    assert n1 == n1 / 16 * 16 + n1 % 16;
    assert n2 == n2 / 4 * 4 + n2 % 4;
  }

  lemma Bytes3(a: nat, b: nat, c: nat)
    requires a < 256 && b < 256 && c < 256
    ensures var n := a * 65536 + b * 256 + c; n / 65536 % 256 == a && n / 256 % 256 == b && n % 256 == c
  {
    assert (a * 65536 + b * 256 + c) / 256 == a * 256 + b;
  }

  /** One turn of the decoder's loop. */
  method DecodeQuad(q: Bytes) returns (ok: bool, bytes: Bytes)
    requires |q| == 4
    ensures ok == IsData(q) && (ok ==> bytes == Quad(q))
  {
    hide Lookup;
    bytes := [];
    var n0, n1, n2, n3 := Lookup(q[0]), Lookup(q[1]), Lookup(q[2]), Lookup(q[3]);
    ok := n0 < 0x80 && n1 < 0x80 && n2 < 0x80 && n3 < 0x80;
    if ok {
      var n := n0 * 262144 + n1 * 4096 + n2 * 64 + n3;
      Ungroup(n0, n1, n2, n3);
      bytes := bytes + [n / 65536 % 256];
      if q[2] != PAD { bytes := bytes + [n / 256 % 256]; }
      if q[3] != PAD { bytes := bytes + [n % 256]; }
    }
  }

  /** `b64_decode`; errors are the two exceptions it throws, with the position reported. */
  method Decode(s: Bytes) returns (r: Result)
    ensures r.Ok? <==> |s| % 4 == 0 && IsData(s)
    ensures r.Ok? ==> r.bytes == Decoded(s)
    ensures r.InvalidSize? <==> |s| % 4 != 0
    ensures r.InvalidData? ==> r.at % 4 == 0 && r.at + 4 <= |s| && !IsData(s[r.at..r.at + 4]) && IsData(s[..r.at])
  {
    hide Quad, Lookup, IsData, Decoded;
    NothingDecoded();
    if |s| == 0 { return Ok([]); }
    if |s| % 4 != 0 { return InvalidSize; }
    var bytes: Bytes := [];
    var i := 0;
    assert s[0..] == s;
    while i < |s|
      invariant 0 <= i <= |s| && i % 4 == 0 && IsData(s[..i])
      invariant IsData(s) ==> IsData(s[i..]) && bytes + Decoded(s[i..]) == Decoded(s)
    {
      var q := s[i..i + 4];
      ghost var rest := s[i..];
      var ok, group := DecodeQuad(q);
      if !ok {
        BadQuad(s, i);
        return InvalidData(i);
      }
      GoodQuad(s, i);
      ghost var bytes0 := bytes;
      bytes := bytes + group;
      if IsData(s) {
        assert rest[..4] == q && rest[4..] == s[i + 4..];
        DecodedStep(rest);
        assert bytes0 + (Quad(q) + Decoded(rest[4..])) == bytes0 + Quad(q) + Decoded(rest[4..]);
      }
      i := i + 4;
    }
    assert s[..i] == s && s[i..] == [];
    r := Ok(bytes);
  }

  lemma NothingDecoded()
    ensures IsData([]) && Decoded([]) == []
  {
  }

  lemma DecodedStep(s: Bytes)
    requires s != [] && |s| % 4 == 0 && IsData(s)
    ensures IsData(s[..4]) && IsData(s[4..]) && Decoded(s) == Quad(s[..4]) + Decoded(s[4..])
  {
  }

  lemma BadQuad(s: Bytes, i: nat)
    requires i + 4 <= |s|
    requires !IsData(s[i..i + 4])
    ensures !IsData(s)
  {
  }

  lemma GoodQuad(s: Bytes, i: nat)
    requires i + 4 <= |s| && IsData(s[..i])
    requires IsData(s[i..i + 4])
    ensures IsData(s[..i + 4])
    ensures IsData(s) ==> IsData(s[i + 4..])
  {
    assert s[..i + 4] == s[..i] + s[i..i + 4];
  }

  // ---- Padding taken off and put back

  predicate AllPadding(s: Bytes) { forall i :: 0 <= i < |s| ==> s[i] == PAD }

  /** `b64_strip`. The loop has no test for an empty string: it reads past the beginning exactly of a
    * string that is not empty and has no other character than padding. */
  method Strip(s: Bytes) returns (t: Bytes, pastBeginning: bool)
    ensures pastBeginning <==> s != [] && AllPadding(s)
    ensures !pastBeginning ==> t == [] || t[|t| - 1] != PAD
    ensures exists n :: s == t + Pads(n)
    ensures forall b :: s == Encoded(b, false) ==> !pastBeginning && t == Encoded(b, true)
  {
    t, pastBeginning := s, false;
    ghost var n := 0;
    assert s == t + Pads(0);
    if t == [] {
      forall b | s == Encoded(b, false) ensures t == Encoded(b, true) { StripEncoded(b, t, n); }
      return;
    }
    while t != [] && t[|t| - 1] == PAD
      invariant s == t + Pads(n) && n + |t| == |s|
      invariant forall i :: |t| <= i < |s| ==> s[i] == PAD
      invariant forall i :: 0 <= i < |t| ==> s[i] == t[i]
    {
      ghost var before := t;
      t := t[..|t| - 1];
      assert before == t + [PAD];
      assert t + ([PAD] + Pads(n)) == before + Pads(n);
      n := n + 1;
    }
    pastBeginning := t == [];
    forall b | s == Encoded(b, false) ensures !pastBeginning && t == Encoded(b, true) {
      EncodingHasData(b);
      StripEncoded(b, t, n);
    }
  }

  /** An encoding that is not empty does not begin with padding. */
  lemma EncodingHasData(b: Bytes)
    requires Encoded(b, false) != []
    ensures Encoded(b, false)[0] != PAD
  {
  }

  /** `b64_sanit`: as many padding characters as the next multiple of four needs. */
  method Sanitize(s: Bytes) returns (t: Bytes)
    ensures exists n :: n < 4 && t == s + Pads(n)
    ensures |t| % 4 == 0
  {
    var pad := 3 - (|s| + 3) % 4;
    t := s + Pads(pad);
  }

  lemma DigitValue(n: nat)
    requires n < 64
    ensures Lookup(Digit(n)) == n
  {
  }

  lemma GroupIsData(a: byte, b: byte, c: byte, k: nat)
    requires 2 <= k <= 4 && (k < 4 ==> c == 0) && (k < 3 ==> b == 0)
    ensures |Group(a, b, c, k) + Pads(4 - k)| == 4 && IsData(Group(a, b, c, k) + Pads(4 - k))
    ensures Quad(Group(a, b, c, k) + Pads(4 - k)) == [a, b, c][..k - 1]
  {
    hide Lookup, Digit, Quad;
    var n0, n1, n2, n3 := a / 4, a % 4 * 16 + b / 16, b % 16 * 4 + c / 64, c % 64;
    DigitValue(n0);
    DigitValue(n1);
    DigitValue(n2);
    DigitValue(n3);
    PadValue();
    var q := Group(a, b, c, k) + Pads(4 - k);
    assert q == [Digit(n0), Digit(n1), if k > 2 then Digit(n2) else PAD, if k > 3 then Digit(n3) else PAD];
    QuadOfDigits(q, n0, n1, n2, n3, k);
    BitsTogether(a, b, c);
  }

  /** Four characters of which the first `k` are digits. */
  lemma QuadOfDigits(q: Bytes, n0: nat, n1: nat, n2: nat, n3: nat, k: nat)
    requires 2 <= k <= 4 && n0 < 64 && n1 < 64 && n2 < 64 && n3 < 64 && (k < 4 ==> n3 == 0) && (k < 3 ==> n2 == 0)
    requires q == [Digit(n0), Digit(n1), if k > 2 then Digit(n2) else PAD, if k > 3 then Digit(n3) else PAD]
    ensures IsData(q)
    ensures Quad(q) == [n0 * 4 + n1 / 16, n1 % 16 * 16 + n2 / 4, n2 % 4 * 64 + n3][..k - 1]
  {
    hide Lookup, Digit;
    DigitValue(n0);
    DigitValue(n1);
    DigitValue(n2);
    DigitValue(n3);
    PadValue();
  }

  lemma BitsTogether(a: byte, b: byte, c: byte)
    ensures a / 4 * 4 + (a % 4 * 16 + b / 16) / 16 == a
    ensures (a % 4 * 16 + b / 16) % 16 * 16 + (b % 16 * 4 + c / 64) / 4 == b
    ensures (b % 16 * 4 + c / 64) % 4 * 64 + c % 64 == c
  {
  }

  lemma PadValue()
    ensures Lookup(PAD) == 0
  {
  }

  /** Decoding what was encoded with padding gives the bytes back. */
  lemma {:induction false} DecodeEncode(s: Bytes)
    ensures |Encoded(s, false)| % 4 == 0 && IsData(Encoded(s, false))
    ensures Decoded(Encoded(s, false)) == s
    decreases |s|
  {
    hide Group, Quad, Lookup;
    if |s| == 0 {
    } else if |s| == 1 {
      GroupIsData(s[0], 0, 0, 2);
      var q := Group(s[0], 0, 0, 2) + Pads(2);
      assert q[..4] == q && q[4..] == [];
      assert Decoded([]) == [];
    } else if |s| == 2 {
      GroupIsData(s[0], s[1], 0, 3);
      var q := Group(s[0], s[1], 0, 3) + Pads(1);
      assert q[..4] == q && q[4..] == [];
      assert Decoded([]) == [];
    } else {
      DecodeEncode(s[3..]);
      GroupIsData(s[0], s[1], s[2], 4);
      var q, rest := Group(s[0], s[1], s[2], 4), Encoded(s[3..], false);
      assert q + Pads(0) == q;
      assert (q + rest)[..4] == q && (q + rest)[4..] == rest;
      assert s == [s[0], s[1], s[2]] + s[3..];
    }
  }

  /** No padding character stands in a stripped encoding. */
  lemma {:induction false} StrippedHasNoPad(s: Bytes)
    ensures forall i :: 0 <= i < |Encoded(s, true)| ==> Encoded(s, true)[i] != PAD
    decreases |s|
  {
    if |s| > 2 {
      StrippedHasNoPad(s[3..]);
    }
  }

  /** Whatever length a stripped encoding has, it lacks just the padding that makes it whole. */
  lemma SanitizedIsPadded(s: Bytes, n: nat)
    requires n < 4 && (|Encoded(s, true)| + n) % 4 == 0
    ensures Encoded(s, true) + Pads(n) == Encoded(s, false)
  {
    hide Encoded;
    EncodedLength(s);
    Padding(s);
    LackingPads(|s|, n);
  }

  /** A stripped length lacks at most two characters of being whole. */
  lemma LackingPads(len: nat, n: nat)
    requires n < 4 && ((4 * len + 2) / 3 + n) % 4 == 0
    ensures n == (3 - len % 3) % 3
  {
    var q, r := len / 3, len % 3;
    assert len == 3 * q + r;
    assert (4 * len + 2) / 3 == 4 * q + (4 * r + 2) / 3;
  }

  /** `b64_encode_strip`. */
  method EncodeStrip(s: Bytes) returns (r: Bytes)
    ensures r == Encoded(s, true)
  {
    r := Encode(s, true);
  }

  /** `b64_sanit_decode`; it gives back the bytes of every stripped encoding. */
  method SanitizeDecode(s: Bytes) returns (r: Result)
    ensures forall b :: s == Encoded(b, true) ==> r == Ok(b)
    ensures !r.InvalidSize?
  {
    var t := Sanitize(s);
    r := Decode(t);
    forall b | s == Encoded(b, true) ensures r == Ok(b) {
      var n :| n < 4 && t == s + Pads(n);
      SanitizedIsPadded(b, n);
      DecodeEncode(b);
    }
  }

  /** Stripping an encoding with padding gives the stripped encoding. */
  lemma StripEncoded(s: Bytes, t: Bytes, n: nat)
    requires Encoded(s, false) == t + Pads(n) && (t == [] || t[|t| - 1] != PAD)
    ensures t == Encoded(s, true)
  {
    Padding(s);
    StrippedHasNoPad(s);
    var u, p := Encoded(s, true), (3 - |s| % 3) % 3;
    assert u + Pads(p) == t + Pads(n);
    var w := u + Pads(p);
    assert forall k :: 0 <= k < |w| ==> (w[k] == PAD <==> k >= |u|);
    assert t != [] ==> w[|t| - 1] == t[|t| - 1];
    assert forall k :: |t| <= k < |w| ==> w[k] == PAD;
    assert |t| <= |u|;
    assert |t| < |w| ==> w[|t|] == PAD;
    assert t == w[..|t|] && u == w[..|u|];
  }
}
