/** UTF-8 as encodings.h codes it, against section 4 of RFC 3629. */
module Utf8 {
  type byte = x: int | 0 <= x < 256

  /** The table of GetRange: the class of a byte. */
  function GetRange(c: byte): bv8 {
    if c < 0x80 then 0
    else if c < 0x90 then 0x10
    else if c < 0xA0 then 0x40
    else if c < 0xC0 then 0x20
    else if c < 0xC2 then 8
    else if c < 0xE0 then 2
    else if c == 0xE0 then 10
    else if c < 0xED then 3
    else if c == 0xED then 4
    else if c < 0xF0 then 3
    else if c == 0xF0 then 11
    else if c < 0xF4 then 6
    else if c == 0xF4 then 5
    else 8
  }

  /** TRANS: whether the class of `c` meets the mask. */
  predicate InClass(c: byte, mask: bv8) {
    GetRange(c) & mask != 0
  }

  /** A null-terminated input. */
  function Peek(s: seq<byte>, p: nat): byte {
    if p < |s| then s[p] else 0
  }

  datatype Step = Step(ok: bool, codepoint: nat, next: nat)

  /** COPY() followed by TRANS(mask). The code point operands of `|` have no bit in common, so it is a sum. */
  function Copy(s: seq<byte>, st: Step, mask: bv8): Step {
    var c := Peek(s, st.next);
    Step(st.ok && InClass(c, mask), st.codepoint * 64 + c % 64, st.next + 1)
  }

  /** TAIL(). */
  function Tail(s: seq<byte>, st: Step): Step {
    Copy(s, st, 0x70)
  }

  /** Decode, from position `p`; Validate takes the same steps and copies what it takes. */
  function Decode(s: seq<byte>, p: nat): Step {
    var c := Peek(s, p);
    if c < 0x80 then Step(true, c, p + 1)
    else
      match GetRange(c)
      case 2 => Tail(s, Step(true, c % 64, p + 1))
      case 3 => Tail(s, Tail(s, Step(true, c % 32, p + 1)))
      case 4 => Tail(s, Copy(s, Step(true, c % 16, p + 1), 0x50))
      case 5 => Tail(s, Tail(s, Copy(s, Step(true, c % 8, p + 1), 0x10)))
      case 6 => Tail(s, Tail(s, Tail(s, Step(true, c % 4, p + 1))))
      case 10 => Tail(s, Copy(s, Step(true, 0, p + 1), 0x20))
      case 11 => Tail(s, Tail(s, Copy(s, Step(true, 0, p + 1), 0x60)))
      case _ => Step(false, 0, p + 1)
  }

  type Scalar = x: int | 0 <= x <= 0x10FFFF

  /** Encode, for the values its assertion allows. */
  function Encode(cp: Scalar): (r: seq<byte>) {
    if cp <= 0x7F then [cp]
    else if cp <= 0x7FF then [0xC0 + cp / 64, 0x80 + cp % 64]
    else if cp <= 0xFFFF then [0xE0 + cp / 4096, 0x80 + cp / 64 % 64, 0x80 + cp % 64]
    else [0xF0 + cp / 262144, 0x80 + cp / 4096 % 64, 0x80 + cp / 64 % 64, 0x80 + cp % 64]
  }

  predicate IsTail(c: byte) {
    0x80 <= c <= 0xBF
  }

  /** UTF8-char of RFC 3629, section 4. */
  predicate WellFormed(u: seq<byte>) {
    || (|u| == 1 && u[0] <= 0x7F)
    || (|u| == 2 && 0xC2 <= u[0] <= 0xDF && IsTail(u[1]))
    || (|u| == 3 && u[0] == 0xE0 && 0xA0 <= u[1] <= 0xBF && IsTail(u[2]))
    || (|u| == 3 && 0xE1 <= u[0] <= 0xEC && IsTail(u[1]) && IsTail(u[2]))
    || (|u| == 3 && u[0] == 0xED && 0x80 <= u[1] <= 0x9F && IsTail(u[2]))
    || (|u| == 3 && 0xEE <= u[0] <= 0xEF && IsTail(u[1]) && IsTail(u[2]))
    || (|u| == 4 && u[0] == 0xF0 && 0x90 <= u[1] <= 0xBF && IsTail(u[2]) && IsTail(u[3]))
    || (|u| == 4 && 0xF1 <= u[0] <= 0xF3 && IsTail(u[1]) && IsTail(u[2]) && IsTail(u[3]))
    || (|u| == 4 && u[0] == 0xF4 && 0x80 <= u[1] <= 0x8F && IsTail(u[2]) && IsTail(u[3]))
  }

  /** A Unicode scalar value: a code point that is no surrogate. */
  predicate IsScalarValue(cp: int) {
    0 <= cp < 0xD800 || 0xDFFF < cp <= 0x10FFFF
  }

  /** UTF8-octets of RFC 3629, section 4: a concatenation of well-formed sequences. */
  ghost predicate IsUtf8(s: seq<byte>)
    decreases |s|
  {
    s == [] || exists k :: 1 <= k <= 4 && k <= |s| && WellFormed(s[..k]) && IsUtf8(s[k..])
  }

  /** The masks of the decoder pick out exactly the ranges of the grammar. */
  lemma Masks(c: byte)
    ensures InClass(c, 0x70) <==> IsTail(c)
    ensures InClass(c, 0x50) <==> 0x80 <= c <= 0x9F
    ensures InClass(c, 0x10) <==> 0x80 <= c <= 0x8F
    ensures InClass(c, 0x20) <==> 0xA0 <= c <= 0xBF
    ensures InClass(c, 0x60) <==> 0x90 <= c <= 0xBF
  {
  }

  /** The bytes of an encoding are the base-64 digits of the code point. */
  lemma Digits2(a: int, b: int)
    requires 2 <= a < 32 && 0 <= b < 64
    ensures Encode(a * 64 + b) == [0xC0 + a, 0x80 + b]
  {
  }

  lemma Digits3(a: int, b: int, c: int)
    requires 0 <= a < 16 && 0 <= b < 64 && 0 <= c < 64 && (a > 0 || b >= 32)
    ensures Encode((a * 64 + b) * 64 + c) == [0xE0 + a, 0x80 + b, 0x80 + c]
  {
  }

  lemma Digits4(a: int, b: int, c: int, d: int)
    requires 0 <= a <= 4 && 0 <= b < 64 && 0 <= c < 64 && 0 <= d < 64 && (a > 0 || b >= 16) && (a == 4 ==> b < 16)
    ensures Encode(((a * 64 + b) * 64 + c) * 64 + d) == [0xF0 + a, 0x80 + b, 0x80 + c, 0x80 + d]
  {
    var n := ((a * 64 + b) * 64 + c) * 64 + d;
    LastDigit(a * 64 + b, c);
    LastDigit((a * 64 + b) * 64 + c, d);
    LastDigit(a, b);
    DivideInTurn(n);
    assert n > 0xFFFF && n <= 0x10FFFF;
  }

  lemma LastDigit(x: int, d: int)
    requires x >= 0 && 0 <= d < 64
    ensures (x * 64 + d) / 64 == x && (x * 64 + d) % 64 == d
  {
  }

  lemma DivideInTurn(n: int)
    requires n >= 0
    ensures n / 4096 == n / 64 / 64 && n / 262144 == n / 64 / 64 / 64
  {
  }

  /** What a decoding step owes the grammar. */
  ghost predicate Decodes(s: seq<byte>, p: nat, r: Step) {
    && p < r.next <= p + 4
    && (r.ok <==> r.next <= |s| && WellFormed(s[p..r.next]))
    && (r.ok ==> IsScalarValue(r.codepoint) && Encode(r.codepoint) == s[p..r.next])
  }

  lemma Decode2(s: seq<byte>, p: nat)
    requires p < |s| && 0xC2 <= s[p] < 0xE0
    ensures Decodes(s, p, Decode(s, p))
  {
    hide InClass, Encode;
    Masks(Peek(s, p + 1));
    Digits2(s[p] % 64, Peek(s, p + 1) % 64);
  }

  lemma Decode3(s: seq<byte>, p: nat)
    requires p < |s| && 0xE0 <= s[p] < 0xF0
    ensures Decodes(s, p, Decode(s, p))
  {
    hide Decode, Encode;
    Steps3(s, p);
    var a, b, c := s[p], Peek(s, p + 1), Peek(s, p + 2);
    if Decode(s, p).ok {
      Digits3(a - 0xE0, b % 64, c % 64);
      assert s[p..p + 3] == [a, b, c];
    }
  }

  lemma Steps3(s: seq<byte>, p: nat)
    requires p < |s| && 0xE0 <= s[p] < 0xF0
    ensures var a, b, c, r := s[p], Peek(s, p + 1), Peek(s, p + 2), Decode(s, p);
            && (r.ok <==> WellFormed([a, b, c]))
            && r.codepoint == ((a - 0xE0) * 64 + b % 64) * 64 + c % 64 && r.next == p + 3
  {
    hide InClass;
    Masks(Peek(s, p + 1));
    Masks(Peek(s, p + 2));
  }

  lemma Decode4(s: seq<byte>, p: nat)
    requires p < |s| && 0xF0 <= s[p] < 0xF5
    ensures Decodes(s, p, Decode(s, p))
  {
    hide Decode, Encode;
    Steps4(s, p);
    var a, b, c, d := s[p], Peek(s, p + 1), Peek(s, p + 2), Peek(s, p + 3);
    if Decode(s, p).ok {
      Digits4(a - 0xF0, b % 64, c % 64, d % 64);
      assert s[p..p + 4] == [a, b, c, d];
    }
  }

  lemma Steps4(s: seq<byte>, p: nat)
    requires p < |s| && 0xF0 <= s[p] < 0xF5
    ensures var a, b, c, d, r := s[p], Peek(s, p + 1), Peek(s, p + 2), Peek(s, p + 3), Decode(s, p);
            && (r.ok <==> WellFormed([a, b, c, d]))
            && r.codepoint == (((a - 0xF0) * 64 + b % 64) * 64 + c % 64) * 64 + d % 64 && r.next == p + 4
  {
    hide InClass, GetRange;
    RangeOfLead4(s[p]);
    Masks(Peek(s, p + 1));
    Masks(Peek(s, p + 2));
    Masks(Peek(s, p + 3));
  }

  lemma RangeOfLead4(c: byte)
    requires 0xF0 <= c < 0xF5
    ensures GetRange(c) == if c == 0xF0 then 11 else if c == 0xF4 then 5 else 6
  {
  }

  /** One step succeeds exactly on a well-formed sequence inside the input, and decodes a scalar value encoded there. */
  lemma DecodeIsWellFormed(s: seq<byte>, p: nat)
    requires p < |s|
    ensures Decodes(s, p, Decode(s, p))
  {
    if 0xC2 <= s[p] < 0xE0 {
      Decode2(s, p);
    } else if 0xE0 <= s[p] < 0xF0 {
      Decode3(s, p);
    } else if 0xF0 <= s[p] < 0xF5 {
      Decode4(s, p);
    }
  }

  /** No other prefix is well formed: the first byte fixes the length. */
  lemma LengthByFirstByte(s: seq<byte>, j: nat, k: nat)
    requires j <= |s| && k <= |s| && WellFormed(s[..j]) && WellFormed(s[..k])
    ensures j == k
  {
    assert s[..j][0] == s[0] == s[..k][0];
  }

  lemma EncodeIsWellFormed(cp: Scalar)
    requires IsScalarValue(cp)
    ensures WellFormed(Encode(cp))
  {
  }

  /** The code point a sequence stands for. */
  function CodePoint(u: seq<int>): int {
    if |u| == 1 then u[0]
    else if |u| == 2 then (u[0] - 0xC0) * 64 + (u[1] - 0x80)
    else if |u| == 3 then ((u[0] - 0xE0) * 64 + (u[1] - 0x80)) * 64 + (u[2] - 0x80)
    else if |u| == 4 then (((u[0] - 0xF0) * 64 + (u[1] - 0x80)) * 64 + (u[2] - 0x80)) * 64 + (u[3] - 0x80)
    else -1
  }

  lemma CodePointOfEncoding(cp: Scalar)
    ensures CodePoint(Encode(cp)) == cp
  {
    assert cp / 64 == cp / 64 / 64 * 64 + cp / 64 % 64;
    assert cp / 4096 == cp / 4096 / 64 * 64 + cp / 4096 % 64;
    assert cp / 64 / 64 == cp / 4096 && cp / 4096 / 64 == cp / 262144;
  }

  /** A well-formed sequence at `p`, whatever follows, is what a step takes. */
  lemma DecodeTakes(s: seq<byte>, p: nat, k: nat)
    requires p + k <= |s| && WellFormed(s[p..p + k])
    ensures Decode(s, p).ok && Decode(s, p).next == p + k
  {
    hide InClass;
    var u := s[p..p + k];
    assert forall i | 0 <= i < k :: Peek(s, p + i) == u[i];
    Masks(Peek(s, p + 1));
    Masks(Peek(s, p + 2));
    Masks(Peek(s, p + 3));
    assert u[0] == s[p];
  }

  /** Decoding the encoding of a scalar value gives it back. */
  lemma DecodeEncode(s: seq<byte>, p: nat, cp: Scalar)
    requires IsScalarValue(cp) && p + |Encode(cp)| <= |s| && s[p..p + |Encode(cp)|] == Encode(cp)
    ensures Decode(s, p) == Step(true, cp, p + |Encode(cp)|)
  {
    hide Decode, Encode, InClass;
    EncodeIsWellFormed(cp);
    DecodeTakes(s, p, |Encode(cp)|);
    assert p < |s|;
    DecodeIsWellFormed(s, p);
    CodePointOfEncoding(cp);
    CodePointOfEncoding(Decode(s, p).codepoint);
  }

  /** Repeated decoding: the code points of the whole input, if every step succeeds. */
  datatype Decoded = Failed | CodePoints(cps: seq<Scalar>)

  function DecodeAll(s: seq<byte>, p: nat): (r: Decoded)
    requires p <= |s|
    decreases |s| - p
  {
    if p == |s| then CodePoints([])
    else
      DecodeIsWellFormed(s, p);
      var r := Decode(s, p);
      if !r.ok then Failed
      else match DecodeAll(s, r.next)
        case Failed => Failed
        case CodePoints(cps) => CodePoints([r.codepoint] + cps)
  }

  function EncodeAll(cps: seq<Scalar>): seq<byte> {
    if cps == [] then [] else Encode(cps[0]) + EncodeAll(cps[1..])
  }

  /** Repeated decoding succeeds exactly on the concatenations of well-formed sequences. */
  lemma {:induction false} DecodeAllAccepts(s: seq<byte>, p: nat)
    requires p <= |s|
    ensures DecodeAll(s, p).CodePoints? <==> IsUtf8(s[p..])
    decreases |s| - p
  {
    hide Decode, Encode, WellFormed;
    if p < |s| {
      DecodeIsWellFormed(s, p);
      var t := s[p..];
      var r := Decode(s, p);
      if r.ok {
        DecodeAllAccepts(s, r.next);
        var n := r.next - p;
        assert t[..n] == s[p..r.next] && t[n..] == s[r.next..];
        forall k | 1 <= k <= 4 && k <= |t| && WellFormed(t[..k])
          ensures k == n
        {
          LengthByFirstByte(t, k, n);
        }
      } else {
        forall k | 1 <= k <= 4 && k <= |t| && WellFormed(t[..k])
          ensures false
        {
          assert t[..k] == s[p..p + k];
          DecodeTakes(s, p, k);
        }
      }
    }
  }

  /** Re-encoding what was decoded reproduces the bytes. */
  lemma {:induction false} EncodeDecodeAll(s: seq<byte>, p: nat)
    requires p <= |s| && DecodeAll(s, p).CodePoints?
    ensures EncodeAll(DecodeAll(s, p).cps) == s[p..]
    ensures forall cp | cp in DecodeAll(s, p).cps :: IsScalarValue(cp)
    decreases |s| - p
  {
    hide Decode, Encode, WellFormed;
    if p < |s| {
      DecodeIsWellFormed(s, p);
      var r := Decode(s, p);
      EncodeDecodeAll(s, r.next);
      assert s[p..] == s[p..r.next] + s[r.next..];
    }
  }

  /** Decoding what was encoded reproduces the scalar values. */
  lemma {:induction false} DecodeEncodeAll(s: seq<byte>, p: nat, cps: seq<Scalar>)
    requires p <= |s| && s[p..] == EncodeAll(cps) && forall cp | cp in cps :: IsScalarValue(cp)
    ensures DecodeAll(s, p) == CodePoints(cps)
    decreases |cps|
  {
    hide Decode, Encode, WellFormed;
    if cps != [] {
      var e := Encode(cps[0]);
      EncodeIsWellFormed(cps[0]);
      NonEmpty(e);
      assert s[p..][..|e|] == e && s[p..][|e|..] == EncodeAll(cps[1..]);
      assert s[p..p + |e|] == s[p..][..|e|] && s[p + |e|..] == s[p..][|e|..];
      DecodeEncode(s, p, cps[0]);
      DecodeEncodeAll(s, p + |e|, cps[1..]);
    }
  }

  lemma NonEmpty(u: seq<byte>)
    requires WellFormed(u)
    ensures u != []
  {
  }

  /** The bytes a step takes, one by one. */
  function Taken(s: seq<byte>, p: nat, q: nat): (r: seq<byte>)
    requires p <= q
    ensures q <= |s| ==> r == s[p..q]
    decreases q - p
  {
    if p == q then [] else Taken(s, p, q - 1) + [Peek(s, q - 1)]
  }

  /** COPY() and TRANS(mask) of Validate: the byte taken goes to the output whether or not it is valid. */
  method CopyByte(s: seq<byte>, ghost start: nat, p: nat, ghost os0: seq<byte>, os: seq<byte>, mask: bv8, result: bool)
    returns (p': nat, os': seq<byte>, result': bool)
    requires start <= p && os == os0 + Taken(s, start, p)
    ensures p' == p + 1 && os' == os0 + Taken(s, start, p') && result' == (result && InClass(Peek(s, p), mask))
  {
    var c := Peek(s, p);
    p', os', result' := p + 1, os + [c], result && InClass(c, mask);
  }

  lemma FirstTaken(s: seq<byte>, p: nat)
    requires p < |s|
    ensures Taken(s, p, p + 1) == [Peek(s, p)]
  {
  }

  /** Validate, one sequence. */
  method Validate(s: seq<byte>, p: nat, os: seq<byte>) returns (ok: bool, next: nat, os': seq<byte>)
    requires p < |s|
    ensures ok == Decode(s, p).ok && next == Decode(s, p).next && next > p
    ensures os' == os + Taken(s, p, next)
  {
    hide InClass, Taken;
    var c := Peek(s, p);
    FirstTaken(s, p);
    next, os', ok := p + 1, os + [c], true;
    if c >= 0x80 {
      match GetRange(c)
      case 2 =>
        next, os', ok := CopyByte(s, p, next, os, os', 0x70, ok);
      case 3 =>
        next, os', ok := CopyByte(s, p, next, os, os', 0x70, ok);
        next, os', ok := CopyByte(s, p, next, os, os', 0x70, ok);
      case 4 =>
        next, os', ok := CopyByte(s, p, next, os, os', 0x50, ok);
        next, os', ok := CopyByte(s, p, next, os, os', 0x70, ok);
      case 5 =>
        next, os', ok := CopyByte(s, p, next, os, os', 0x10, ok);
        next, os', ok := CopyByte(s, p, next, os, os', 0x70, ok);
        next, os', ok := CopyByte(s, p, next, os, os', 0x70, ok);
      case 6 =>
        next, os', ok := CopyByte(s, p, next, os, os', 0x70, ok);
        next, os', ok := CopyByte(s, p, next, os, os', 0x70, ok);
        next, os', ok := CopyByte(s, p, next, os, os', 0x70, ok);
      case 10 =>
        next, os', ok := CopyByte(s, p, next, os, os', 0x20, ok);
        next, os', ok := CopyByte(s, p, next, os, os', 0x70, ok);
      case 11 =>
        next, os', ok := CopyByte(s, p, next, os, os', 0x60, ok);
        next, os', ok := CopyByte(s, p, next, os, os', 0x70, ok);
        next, os', ok := CopyByte(s, p, next, os, os', 0x70, ok);
      case _ => ok := false;
    }
  }

  /** Validating a whole input accepts exactly UTF-8 and copies it unchanged. */
  method ValidateAll(s: seq<byte>) returns (ok: bool, os: seq<byte>)
    ensures ok <==> IsUtf8(s)
    ensures ok ==> os == s
  {
    hide Decode, Encode, WellFormed;
    DecodeAllAccepts(s, 0);
    assert s[0..] == s;
    var p := 0;
    ok, os := true, [];
    while ok && p < |s|
      invariant ok ==> p <= |s| && os == s[..p]
      invariant IsUtf8(s) <==> ok && DecodeAll(s, p).CodePoints?
      decreases ok, |s| - p
    {
      DecodeIsWellFormed(s, p);
      ok, p, os := Validate(s, p, os);
    }
  }
}
