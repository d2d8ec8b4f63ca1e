/** Array indices of pointer tokens. */
module PointerIndex {
  import opened Machine
  import opened Utf8
  import opened PointerText

  /** The largest value of `SizeType` marks a token that is no index. */
  const INVALID_INDEX: nat := SIZE_MODULUS - 1

  predicate AllDigits(name: Text) { forall k :: 0 <= k < |name| ==> IsDigit(name[k]) }

  /** The array-index syntax of section 4 of RFC 6901. */
  predicate IsNumber(name: Text) {
    AllDigits(name) && name != [] && (|name| > 1 ==> name[0] != ZERO)
  }

  /** The value of a string of digits. */
  function Value(name: Text): nat
    requires AllDigits(name)
  {
    if name == [] then 0 else Value(name[..|name| - 1]) * 10 + (name[|name| - 1] - ZERO)
  }

  /** The conversion loop from its `j`th turn on, when `n` has been read: an unsigned
    * accumulator, and a wrap noticed when the value falls. */
  function Accumulate(name: Text, j: nat, n: nat): nat
    requires AllDigits(name) && j <= |name|
    decreases |name| - j
  {
    if j == |name| then n
    else
      var m := (n * 10 + (name[j] - ZERO)) % SIZE_MODULUS;
      if m < n then INVALID_INDEX else Accumulate(name, j + 1, m)
  }

  function IndexOf(name: Text): nat {
    if IsNumber(name) then Accumulate(name, 0, 0) else INVALID_INDEX
  }

  /** The value of the first `k` digits, wrapped to the index type. */
  function Wrapped(name: Text, k: nat): nat
    requires AllDigits(name) && k <= |name|
  {
    Value(name[..k]) % SIZE_MODULUS
  }

  /** Some digit from the `j`th on makes the wrapped value fall. */
  predicate FallsFrom(name: Text, j: nat)
    requires AllDigits(name)
  {
    exists k :: j <= k < |name| && Falls(name, k)
  }

  predicate Falls(name: Text, k: nat)
    requires AllDigits(name) && k < |name|
  {
    Wrapped(name, k + 1) < Wrapped(name, k)
  }

  lemma ValueStep(name: Text, k: nat)
    requires k < |name| && AllDigits(name)
    ensures Value(name[..k + 1]) == Value(name[..k]) * 10 + (name[k] - ZERO)
  {
    assert name[..k + 1][..k] == name[..k];
  }

  /** Wrapping before a digit is read changes nothing after it. */
  lemma WrapEarlier(v: nat, d: nat)
    ensures (v % SIZE_MODULUS * 10 + d) % SIZE_MODULUS == (v * 10 + d) % SIZE_MODULUS
  {
    var q := v / SIZE_MODULUS;
    var u := v % SIZE_MODULUS * 10 + d;
    assert v * 10 + d == u + q * 10 * SIZE_MODULUS;
    MultiplesVanish(u, q * 10);
  }

  lemma {:induction false} MultiplesVanish(u: nat, m: nat)
    ensures (u + m * SIZE_MODULUS) % SIZE_MODULUS == u % SIZE_MODULUS
  {
    if m > 0 {
      MultiplesVanish(u, m - 1);
      var w := u + (m - 1) * SIZE_MODULUS;
      assert u + m * SIZE_MODULUS == w + SIZE_MODULUS;
      assert (w + SIZE_MODULUS) % SIZE_MODULUS == w % SIZE_MODULUS;
    }
  }

  /** The loop from any digit on, with the wrapped value of the digits before it. */
  lemma {:induction false} AccumulatesFrom(name: Text, j: nat)
    requires AllDigits(name) && j <= |name|
    ensures Accumulate(name, j, Wrapped(name, j)) == if FallsFrom(name, j) then INVALID_INDEX else Wrapped(name, |name|)
    decreases |name| - j
  {
    hide Value;
    if j < |name| {
      var v := Value(name[..j]);
      ValueStep(name, j);
      WrapEarlier(v, name[j] - ZERO);
      AccumulatesFrom(name, j + 1);
      assert FallsFrom(name, j) <==> Falls(name, j) || FallsFrom(name, j + 1);
    }
  }

  /** What a number of any length becomes: no index exactly when its wrapped value falls at
    * some digit, or is the one value that marks no index; its wrapped value otherwise. */
  lemma IndexOfNumber(name: Text)
    requires IsNumber(name)
    ensures IndexOf(name) == INVALID_INDEX <==> FallsFrom(name, 0) || Value(name) % SIZE_MODULUS == INVALID_INDEX
    ensures IndexOf(name) != INVALID_INDEX ==> IndexOf(name) == Value(name) % SIZE_MODULUS
  {
    assert name[..|name|] == name && name[..0] == [];
    AccumulatesFrom(name, 0);
  }

  lemma PrefixFits(name: Text, k: nat)
    requires AllDigits(name) && k <= |name|
    ensures Value(name[..k]) <= Value(name)
  {
    PrefixesGrow(name, k, |name|);
    assert name[..|name|] == name;
  }

  /** A number that fits the type is read exactly. */
  lemma IndexIsExact(name: Text)
    requires IsNumber(name) && Value(name) < SIZE_MODULUS
    ensures IndexOf(name) == Value(name)
  {
    hide Value;
    IndexOfNumber(name);
    forall k | 0 <= k < |name| ensures !Falls(name, k) {
      PrefixFits(name, k);
      PrefixFits(name, k + 1);
      ValueStep(name, k);
    }
  }

  /** The documentation promises that a number beyond the type is no index: it is one exactly
    * when no digit makes its wrapped value fall and the result does not mark no index. */
  lemma TooLargeIsNoIndexIff(name: Text)
    requires IsNumber(name) && Value(name) >= SIZE_MODULUS
    ensures IndexOf(name) != INVALID_INDEX <==> !FallsFrom(name, 0) && Value(name) % SIZE_MODULUS != INVALID_INDEX
  {
    IndexOfNumber(name);
  }

  lemma {:induction false} PrefixesGrow(name: Text, j: nat, k: nat)
    requires AllDigits(name) && j <= k <= |name|
    ensures Value(name[..j]) <= Value(name[..k])
    decreases k
  {
    if j < k {
      PrefixesGrow(name, j, k - 1);
      ValueStep(name, k - 1);
    }
  }

  /** When all but the last digit fit, only the last can make the value fall. */
  lemma FallsAtLast(name: Text)
    requires AllDigits(name) && name != [] && Value(name[..|name| - 1]) < SIZE_MODULUS
    ensures FallsFrom(name, 0) <==> Value(name) % SIZE_MODULUS < Value(name[..|name| - 1])
  {
    hide Value;
    var n := |name| - 1;
    assert name[..n + 1] == name;
    assert Falls(name, n) <==> Value(name) % SIZE_MODULUS < Value(name[..n]);
    forall k | 0 <= k < n ensures !Falls(name, k) {
      PrefixesGrow(name, k, k + 1);
      PrefixesGrow(name, k + 1, n);
    }
  }

  /** A five and `k` zeros. */
  function Five(k: nat): Text { if k == 0 then [0x35] else Five(k - 1) + [ZERO] }

  function Power(k: nat): nat { if k == 0 then 1 else 10 * Power(k - 1) }

  lemma {:induction false} FiveIs(k: nat)
    ensures AllDigits(Five(k)) && |Five(k)| == k + 1 && Five(k)[0] == 0x35
    ensures Value(Five(k)) == 5 * Power(k)
  {
    if k > 0 {
      FiveIs(k - 1);
      assert Five(k)[..k] == Five(k - 1);
    } else {
      assert Five(0)[..0] == [];
    }
  }

  /** A number beyond the type that is taken for another index. */
  lemma WrapsUnnoticed()
    ensures exists name :: IsNumber(name) && Value(name) == 5_000_000_000 && IndexOf(name) == 705_032_704
  {
    hide Value, Five, IndexOf;
    var name := Five(9);
    FiveIs(9);
    FiveIs(8);
    assert name[..9] == Five(8) by { assert name == Five(8) + [ZERO] by { FiveGrows(); } }
    assert Power(5) == 100_000 && Power(8) == 100_000_000 && Power(9) == 1_000_000_000;
    FallsAtLast(name);
    IndexOfNumber(name);
  }

  lemma FiveGrows()
    ensures Five(9) == Five(8) + [ZERO]
  {
  }
}

/** The pointer object: its parser fills a name buffer and a token array, its writer prints
  * them. */
module PointerParser {
  import opened Machine
  import opened Utf8
  import opened PointerText
  import opened PointerIndex

  lemma {:induction false} TripletAt(s: Text, k: nat)
    requires k <= |Triplets(s)|
    ensures 3 * k <= |s|
    ensures k < |Triplets(s)| <==> StartsWithTriplet(s[3 * k..])
    ensures k < |Triplets(s)| ==> Triplets(s)[k] == TripletValue(s[3 * k..])
    decreases k
  {
    if k > 0 {
      TripletAt(s[3..], k - 1);
      assert s[3..][3 * (k - 1)..] == s[3 * k..];
    } else {
      assert s[3 * k..] == s;
    }
  }

  /** A stream that decodes percent-encoded triplets. */
  class PercentDecodeStream {
    const source: Text
    const head: nat
    var src: nat
    var valid: bool

    ghost predicate Valid()
      reads this
    {
      head <= src <= |source|
    }

    constructor (source: Text, head: nat)
      requires head <= |source|
      ensures Valid() && this.source == source && this.head == head && src == head && valid
    {
      this.source, this.head, src, valid := source, head, head, true;
    }

    method Take() returns (c: byte)
      requires Valid()
      modifies this
      ensures Valid()
      ensures StartsWithTriplet(source[old(src)..]) ==>
        c == TripletValue(source[old(src)..]) && src == old(src) + 3 && valid == old(valid)
      ensures !StartsWithTriplet(source[old(src)..]) ==> c == 0 && !valid
    {
      ghost var s := source[src..];
      if Peek(source, src) != PERCENT || src + 3 > |source| {
        valid := false;
        return 0;
      }
      src := src + 1;
      var v: nat := 0;
      var j := 0;
      while j < 2
        invariant 0 <= j <= 2 && src == old(src) + 1 + j && valid == old(valid)
        invariant forall k :: 1 <= k <= j ==> HexValue(s[k]) < 16
        invariant v == if j == 0 then 0 else if j == 1 then HexValue(s[1]) else HexValue(s[1]) * 16 + HexValue(s[2])
      {
        assert source[src] == s[j + 1];
        var d := HexValue(source[src]);
        if d == 16 {
          valid := false;
          return 0;
        }
        v := v * 16 + d;
        src := src + 1;
        j := j + 1;
      }
      c := v;
    }
  }

  /** The bytes `b` have been asked of the stream and stored from `at` on: the bytes of the
    * triplets, as far as there are any. The stream is valid as long as there were. */
  ghost predicate Progress(input: PercentDecodeStream, t: Text, b: Text, buffer: array<byte>, at: nat)
    reads input, buffer
  {
    && input.Valid() && t == Triplets(input.source[input.head..]) && at + |b| <= buffer.Length
    && (input.valid <==> |b| <= |t|)
    && (input.valid ==> input.src == input.head + 3 * |b|)
    && (forall j :: 0 <= j < |b| && j < |t| ==> b[j] == t[j])
    && buffer[at..at + |b|] == b
  }

  /** `COPY` of the validator. */
  method CopyInto(input: PercentDecodeStream, ghost t: Text, b: Text, buffer: array<byte>, at: nat)
    returns (b': Text)
    requires Progress(input, t, b, buffer, at) && at + |b| < buffer.Length
    modifies input, buffer
    ensures |b'| == |b| + 1 && b' == b + [b'[|b|]] && Progress(input, t, b', buffer, at)
    ensures buffer[..at] == old(buffer[..at])
    ensures b == [] && !input.valid ==> b' == [0]
  {
    hide Triplets, StartsWithTriplet, TripletValue;
    ghost var s := input.source[input.head..];
    if |b| <= |t| {
      TripletAt(s, |b|);
      assert s[3 * |b|..] == input.source[input.head + 3 * |b|..];
    }
    var c := input.Take();
    buffer[at + |b|] := c;
    b' := b + [c];
  }

  /** `COPY` and `TRANS` of the validator. */
  method TransInto(input: PercentDecodeStream, ghost t: Text, b: Text, buffer: array<byte>, at: nat, mask: bv8, result: bool)
    returns (result': bool, b': Text)
    requires Progress(input, t, b, buffer, at) && at + |b| < buffer.Length
    modifies input, buffer
    ensures |b'| == |b| + 1 && b' == b + [b'[|b|]] && Progress(input, t, b', buffer, at)
    ensures buffer[..at] == old(buffer[..at])
    ensures result' == (result && InClass(b'[|b|], mask))
  {
    b' := CopyInto(input, t, b, buffer, at);
    result' := result && InClass(b'[|b|], mask);
  }

  /** A step of the decoder looks at no byte beyond those it takes, and the first byte says
    * how many it takes. */
  lemma DecodeIsLocal(b: Text, t: Text)
    requires b != [] && Decode(b, 0).next == |b|
    ensures t != [] && t[0] == b[0] ==> Decode(t, 0).next == |b|
    ensures b <= t ==> Decode(t, 0) == Decode(b, 0)
  {
    hide Decode;
    TakesNeeded(b);
    if t != [] { TakesNeeded(t); }
    if b <= t { SameBytesSameStep(b, t); }
  }

  lemma TakesNeeded(s: Text)
    requires s != []
    ensures Decode(s, 0).next == Needed(s[0])
  {
    hide InClass, GetRange;
  }

  lemma SameBytesSameStep(b: Text, t: Text)
    requires b != [] && |b| == Needed(b[0]) && b <= t
    ensures Decode(t, 0) == Decode(b, 0)
  {
    hide InClass, GetRange;
    assert Peek(t, 0) == Peek(b, 0) && (|b| > 1 ==> Peek(t, 1) == Peek(b, 1));
    assert (|b| > 2 ==> Peek(t, 2) == Peek(b, 2)) && (|b| > 3 ==> Peek(t, 3) == Peek(b, 3));
  }

  /** The bytes after the first, each with the mask that the first asks for. */
  method RestInto(input: PercentDecodeStream, ghost t: Text, first: Text, buffer: array<byte>, at: nat) returns (ok: bool, b: Text)
    requires Progress(input, t, first, buffer, at) && |first| == 1 && first[0] >= 0x80 && at + 4 <= buffer.Length
    modifies input, buffer
    ensures Progress(input, t, b, buffer, at) && buffer[..at] == old(buffer[..at])
    ensures b != [] && b[0] == first[0] && |b| == Needed(b[0]) && ok == MaskOk(b)
  {
    hide InClass, GetRange, Progress;
    ok, b := true, first;
    match GetRange(b[0])
    case 2 =>
      ok, b := TransInto(input, t, b, buffer, at, 0x70, ok);
    case 3 =>
      ok, b := TransInto(input, t, b, buffer, at, 0x70, ok);
      ok, b := TransInto(input, t, b, buffer, at, 0x70, ok);
    case 4 =>
      ok, b := TransInto(input, t, b, buffer, at, 0x50, ok);
      ok, b := TransInto(input, t, b, buffer, at, 0x70, ok);
    case 5 =>
      ok, b := TransInto(input, t, b, buffer, at, 0x10, ok);
      ok, b := TransInto(input, t, b, buffer, at, 0x70, ok);
      ok, b := TransInto(input, t, b, buffer, at, 0x70, ok);
    case 6 =>
      ok, b := TransInto(input, t, b, buffer, at, 0x70, ok);
      ok, b := TransInto(input, t, b, buffer, at, 0x70, ok);
      ok, b := TransInto(input, t, b, buffer, at, 0x70, ok);
    case 10 =>
      ok, b := TransInto(input, t, b, buffer, at, 0x20, ok);
      ok, b := TransInto(input, t, b, buffer, at, 0x70, ok);
    case 11 =>
      ok, b := TransInto(input, t, b, buffer, at, 0x60, ok);
      ok, b := TransInto(input, t, b, buffer, at, 0x70, ok);
      ok, b := TransInto(input, t, b, buffer, at, 0x70, ok);
    case _ => ok := false;
  }

  /** Validates one sequence of the stream into the buffer. */
  method ValidateInto(input: PercentDecodeStream, ghost t: Text, buffer: array<byte>, at: nat) returns (ok: bool, b: Text)
    requires Progress(input, t, [], buffer, at) && input.head < |input.source|
    requires at < input.head && buffer.Length == |input.source|
    modifies input, buffer
    ensures Progress(input, t, b, buffer, at) && buffer[..at] == old(buffer[..at])
    ensures ok && input.valid <==> t != [] && Decode(t, 0).ok
    ensures ok && input.valid ==> 0 < |b| == Decode(t, 0).next && b <= t
  {
    hide InClass, GetRange, Triplets, Decode, StartsWithTriplet, TripletValue, Progress;
    Started(input, t, [], buffer, at);
    b := CopyInto(input, t, [], buffer, at);
    Started(input, t, b, buffer, at);
    ok := true;
    if b[0] >= 0x80 {
      ok, b := RestInto(input, t, b, buffer, at);
    }
    Started(input, t, b, buffer, at);
    Concluded(b, t);
  }

  /** The masks over the bytes taken decide what the decoder decides on the triplets. */
  lemma Concluded(b: Text, t: Text)
    requires b != [] && |b| == Needed(b[0]) && (t != [] ==> b[0] == t[0]) && (|b| <= |t| ==> b <= t)
    ensures MaskOk(b) && |b| <= |t| <==> t != [] && Decode(t, 0).ok
    ensures |b| <= |t| ==> Decode(t, 0).next == |b|
  {
    hide MaskOk, Needed;
    DecodeOfBytes(b);
    DecodeIsLocal(b, t);
    if t != [] { DecodeIsWellFormed(t, 0); }
  }

  lemma Started(input: PercentDecodeStream, t: Text, b: Text, buffer: array<byte>, at: nat)
    requires Progress(input, t, b, buffer, at)
    ensures input.Valid() && (input.valid <==> |b| <= |t|) && input.head + 3 * |t| <= |input.source|
    ensures |b| <= |t| ==> b <= t
    ensures b != [] && t != [] ==> b[0] == t[0]
  {
    TripletsLength(input.source[input.head..]);
  }

  function MaskOk(b: Text): bool
    requires b != []
  {
    var c := b[0];
    if c < 0x80 then |b| == 1
    else
      match GetRange(c)
      case 2 => |b| == 2 && InClass(b[1], 0x70)
      case 3 => |b| == 3 && InClass(b[1], 0x70) && InClass(b[2], 0x70)
      case 4 => |b| == 3 && InClass(b[1], 0x50) && InClass(b[2], 0x70)
      case 5 => |b| == 4 && InClass(b[1], 0x10) && InClass(b[2], 0x70) && InClass(b[3], 0x70)
      case 6 => |b| == 4 && InClass(b[1], 0x70) && InClass(b[2], 0x70) && InClass(b[3], 0x70)
      case 10 => |b| == 3 && InClass(b[1], 0x20) && InClass(b[2], 0x70)
      case 11 => |b| == 4 && InClass(b[1], 0x60) && InClass(b[2], 0x70) && InClass(b[3], 0x70)
      case _ => false
  }

  function Needed(c: byte): nat {
    if c < 0x80 then 1
    else
      match GetRange(c)
      case 2 => 2
      case 3 => 3
      case 4 => 3
      case 5 => 4
      case 6 => 4
      case 10 => 3
      case 11 => 4
      case _ => 1
  }

  lemma DecodeOfBytes(b: Text)
    requires b != [] && |b| == Needed(b[0])
    ensures Decode(b, 0).ok == MaskOk(b) && Decode(b, 0).next == |b|
  {
    hide InClass;
  }

  datatype Failure = None | Failure(code: ErrorCode)

  /** Decodes the percent-encoded sequence at `i` into the buffer. */
  method PercentInto(source: Text, i: nat, buffer: array<byte>, name: nat) returns (ok: bool, len: nat, tell: nat)
    requires name < i < |source| == buffer.Length
    modifies buffer
    ensures buffer[..name] == old(buffer[..name])
    ensures var u := PercentSequence(source[i..]);
            && (ok <==> u != [])
            && (ok ==> len == |u| && tell == 3 * len && name + len <= buffer.Length && buffer[name..name + len] == u)
  {
    hide Triplets, Decode, StartsWithTriplet, TripletValue;
    ghost var t := Triplets(source[i..]);
    var input := new PercentDecodeStream(source, i);
    var bytes;
    ok, bytes := ValidateInto(input, t, buffer, name);
    Started(input, t, bytes, buffer, name);
    if t != [] { DecodeIsWellFormed(t, 0); }
    ok := ok && input.valid;
    len, tell := |bytes|, input.src - i;
  }

  /** The escapes `~0` and `~1`, once `c` has been read. */
  method UnescapeAt(source: Text, i: nat, c: byte) returns (failure: Failure, i': nat, c': byte)
    requires i <= |source|
    ensures i <= i' <= |source|
    ensures var u := Unescape(c, source[i..]);
            if u.BadUnit? then failure == Failure(u.code) && i' == |source| - u.left
            else failure == None && source[i'..] == u.rest && u.bytes == [c']
  {
    failure, i', c' := None, i, c;
    if c == TILDE {
      if i < |source| {
        c' := source[i];
        if c' == ZERO {
          c' := TILDE;
        } else if c' == ONE {
          c' := SOLIDUS;
        } else {
          return Failure(InvalidEscape), i, c';
        }
        i' := i + 1;
      } else {
        failure := Failure(InvalidEscape);
      }
    }
  }

  /** One turn of the loop over the characters of a name. */
  method UnitInto(source: Text, i: nat, uri: bool, buffer: array<byte>, name: nat)
    returns (failure: Failure, i': nat, name': nat, digits: bool)
    requires name < i < |source| == buffer.Length && !AtEnd(source[i..])
    modifies buffer
    ensures buffer[..name] == old(buffer[..name]) && i' <= |source|
    ensures var u := ReadUnit(source[i..], uri);
            if u.BadUnit? then failure == Failure(u.code) && i' == |source| - u.left
            else
              && failure == None && source[i'..] == u.rest && i < i' && name' == name + |u.bytes| < i'
              && buffer[name..name'] == u.bytes && digits == AllDigits(u.bytes)
  {
    hide PercentSequence, Unescape;
    var c, next := source[i], i + 1;
    ghost var before := buffer[..name];
    if uri && c == PERCENT {
      var ok, len, tell := PercentInto(source, i, buffer, name);
      if !ok {
        return Failure(InvalidPercentEncoding), i, name, false;
      }
      next := i + tell;
      if len == 1 {
        assert buffer[name..name + len][0] == buffer[name];
        c := buffer[name];
      } else {
        MultiByte(source[i..]);
        return None, next, name + len, false;
      }
    } else if uri && NeedPercentEncode(c) {
      return Failure(CharacterMustPercentEncode), i, name, false;
    }
    failure, i', c := UnescapeAt(source, next, c);
    if failure.Failure? { return failure, i', name, false; }
    digits := IsDigit(c);
    buffer[name] := c;
    name' := name + 1;
    assert buffer[name..name'] == [c];
    assert buffer[..name] == before;
    assert AllDigits([c]) == digits by { OneDigit(c); }
  }

  lemma OneDigit(c: byte)
    ensures AllDigits([c]) == IsDigit(c)
  {
    assert [c][0] == c;
  }

  /** A sequence of several bytes is no digit. */
  lemma MultiByte(s: Text)
    requires |PercentSequence(s)| > 1
    ensures !AllDigits(PercentSequence(s))
  {
    var t := Triplets(s);
    DecodeIsWellFormed(t, 0);
    var len := Decode(t, 0).next;
    assert t[0..len] == t[..len];
    assert !IsDigit(t[..len][0]);
  }

  function After(bytes: Text, n: Name): Name {
    if n.BadName? then n else Name(bytes + n.name, n.rest)
  }

  lemma AfterUnit(done: Text, s: Text, uri: bool)
    requires !AtEnd(s)
    ensures var u := ReadUnit(s, uri);
            After(done, ReadName(s, uri)) ==
            if u.BadUnit? then BadName(u.code, u.left) else After(done + u.bytes, ReadName(u.rest, uri))
  {
    var u := ReadUnit(s, uri);
    if u.Unit? && ReadName(u.rest, uri).Name? {
      assert done + (u.bytes + ReadName(u.rest, uri).name) == done + u.bytes + ReadName(u.rest, uri).name;
    }
  }

  lemma DigitsOfBoth(a: Text, b: Text)
    ensures AllDigits(a + b) == (AllDigits(a) && AllDigits(b))
  {
    if AllDigits(a + b) {
      assert forall k :: 0 <= k < |a| ==> a[k] == (a + b)[k];
      assert forall k :: 0 <= k < |b| ==> b[k] == (a + b)[|a| + k];
    }
  }

  /** The loop over the characters of one name. */
  method NameInto(source: Text, start: nat, uri: bool, buffer: array<byte>, first: nat)
    returns (failure: Failure, i: nat, name: nat, isNumber: bool)
    requires first < start <= |source| == buffer.Length
    modifies buffer
    ensures buffer[..first] == old(buffer[..first]) && i <= |source|
    ensures var n := ReadName(source[start..], uri);
            if n.BadName? then failure == Failure(n.code) && i == |source| - n.left
            else
              && failure == None && source[i..] == n.rest && start <= i && first <= name < i
              && buffer[first..name] == n.name && isNumber == AllDigits(n.name)
  {
    hide ReadUnit, ReadName, AllDigits;
    ghost var whole := ReadName(source[start..], uri);
    i, name, isNumber := start, first, true;
    ghost var done: Text := [];
    ghost var before := buffer[..first];
    EmptyName(source[start..], uri);
    while i < |source| && source[i] != SOLIDUS
      invariant start <= i <= |source| && first <= name < i
      invariant buffer[..name] == before + done
      invariant whole == After(done, ReadName(source[i..], uri))
      invariant isNumber == AllDigits(done)
    {
      ghost var s := source[i..];
      ghost var sofar := buffer[..name];
      ghost var at := name;
      var digits;
      failure, i, name, digits := UnitInto(source, i, uri, buffer, name);
      AfterUnit(done, s, uri);
      if failure.Failure? {
        assert buffer[..first] == sofar[..first];
        return;
      }
      isNumber := isNumber && digits;
      ghost var u := ReadUnit(s, uri);
      DigitsOfBoth(done, u.bytes);
      done := done + u.bytes;
      assert buffer[..name] == buffer[..at] + buffer[at..name];
    }
    failure := None;
    AtEndName(source[i..], uri);
    assert buffer[first..name] == buffer[..name][first..] == done;
    assert buffer[..first] == buffer[..name][..first] == before;
  }

  lemma EmptyName(s: Text, uri: bool)
    ensures ReadName(s, uri) == After([], ReadName(s, uri)) && AllDigits([])
  {
  }

  lemma AtEndName(s: Text, uri: bool)
    requires AtEnd(s)
    ensures ReadName(s, uri) == Name([], s)
  {
  }

  /** A token: where its name starts in the name buffer, its length, and its index. */
  datatype Token = Token(name: nat, length: nat, index: nat)

  /** The buffer holds the whole name, followed by a null character; the length is kept in 32
    * bits, and the token stands for the name if they suffice. */
  ghost predicate Denotes(t: Token, buffer: Text, name: Text) {
    && t.name + |name| < |buffer|
    && buffer[t.name..t.name + |name|] == name && buffer[t.name + |name|] == 0
    && t.length == |name| % SIZE_MODULUS
    && (|name| < SIZE_MODULUS ==> t.index == IndexOf(name))
  }

  ghost predicate AllDenote(tokens: seq<Token>, buffer: Text, names: seq<Text>) {
    |tokens| == |names| && forall k :: 0 <= k < |names| ==> Denotes(tokens[k], buffer, names[k])
  }

  lemma AllStillDenote(tokens: seq<Token>, buffer: Text, longer: Text, names: seq<Text>)
    requires AllDenote(tokens, buffer, names) && buffer <= longer
    ensures AllDenote(tokens, longer, names)
  {
  }

  lemma OneMoreDenotes(tokens: seq<Token>, t: Token, buffer: Text, longer: Text, names: seq<Text>, name: Text)
    requires AllDenote(tokens, buffer, names) && buffer <= longer && Denotes(t, longer, name)
    ensures AllDenote(tokens + [t], longer, names + [name])
  {
  }

  lemma TokenDenotes(t: Token, buffer: Text, name: Text)
    requires t.name + |name| < |buffer| && t.length == |name| % SIZE_MODULUS
    requires |name| < SIZE_MODULUS ==> t.index == IndexOf(name)
    requires buffer[t.name..t.name + |name|] == name && buffer[t.name + |name|] == 0
    ensures Denotes(t, buffer, name)
  {
  }

  /** The index conversion at the end of a name. */
  method Index(name: Text, allDigits: bool) returns (index: nat)
    requires allDigits ==> AllDigits(name)
    ensures allDigits == AllDigits(name) ==> index == IndexOf(name)
  {
    var isNumber := allDigits;
    if |name| == 0 { isNumber := false; }
    if isNumber && |name| > 1 && name[0] == ZERO { isNumber := false; }
    var n := 0;
    if isNumber {
      var j := 0;
      while j < |name|
        invariant 0 <= j <= |name|
        invariant isNumber ==> Accumulate(name, j, n) == Accumulate(name, 0, 0)
        invariant !isNumber ==> j == |name| && Accumulate(name, 0, 0) == INVALID_INDEX
      {
        var m := (n * 10 + (name[j] - ZERO)) % SIZE_MODULUS;
        if m < n {
          isNumber := false;
          j := |name|;
        } else {
          n := m;
          j := j + 1;
        }
      }
    }
    index := if isNumber then n else INVALID_INDEX;
  }

  method CountSolidi(source: Text) returns (count: nat)
    ensures count == Solidi(source)
  {
    count := 0;
    var i := 0;
    while i < |source|
      invariant 0 <= i <= |source| && count + Solidi(source[i..]) == Solidi(source)
    {
      if source[i] == SOLIDUS { count := count + 1; }
      i := i + 1;
    }
  }

  /** One token: its name, the null character behind it, and its index. */
  method TokenInto(source: Text, i: nat, uri: bool, buffer: array<byte>, name: nat)
    returns (failure: Failure, i': nat, name': nat, token: Token)
    requires name <= i < |source| == buffer.Length
    modifies buffer
    ensures i' <= |source| && name' <= buffer.Length
    ensures var n := ReadName(source[i + 1..], uri);
            if n.BadName? then failure == Failure(n.code) && i' == |source| - n.left
            else
              && failure == None && source[i'..] == n.rest && i < i' && name' <= i' && AtEnd(source[i'..])
              && old(buffer[..name]) <= buffer[..name'] && Denotes(token, buffer[..name'], n.name)
  {
    hide ReadName, IndexOf, Denotes;
    ghost var n := ReadName(source[i + 1..], uri);
    ghost var before := buffer[..name];
    var isNumber;
    failure, i', name', isNumber := NameInto(source, i + 1, uri, buffer, name);
    token := Token(name, 0, INVALID_INDEX);
    if failure.Failure? { return failure, i', name, token; }
    RestAtEnd(source[i + 1..], uri);
    token := EndName(buffer, name, name', isNumber, n.name);
    name' := name' + 1;
    assert before <= buffer[..name'];
  }

  /** The null character, the length and the index at the end of a name. */
  method EndName(buffer: array<byte>, start: nat, end: nat, isNumber: bool, ghost name: Text) returns (token: Token)
    requires start <= end < buffer.Length && buffer[start..end] == name && isNumber == AllDigits(name)
    modifies buffer
    ensures buffer[..end] == old(buffer[..end])
    ensures Denotes(token, buffer[..end + 1], name)
  {
    hide IndexOf, Denotes, AllDigits;
    ghost var before := buffer[..end];
    var length := (end - start) % SIZE_MODULUS;
    buffer[end] := 0;
    assert buffer[..end] == before;
    assert name[..length] == buffer[start..start + length];
    if isNumber { PartOfDigits(name, length); }
    var index := Index(buffer[start..start + length], isNumber);
    token := Token(start, length, index);
    assert |name| < SIZE_MODULUS ==> name[..length] == name;
    assert buffer[..end + 1][start..start + |name|] == name;
    TokenDenotes(token, buffer[..end + 1], name);
  }

  lemma PartOfDigits(name: Text, k: nat)
    requires k <= |name| && AllDigits(name)
    ensures AllDigits(name[..k])
  {
  }

  lemma RestAtEnd(s: Text, uri: bool)
    ensures ReadName(s, uri).Name? ==> AtEnd(ReadName(s, uri).rest)
  {
  }

  function AfterNames(names: seq<Text>, r: Names): Names {
    if r.BadNames? then r else Names(names + r.names)
  }

  lemma AfterToken(names: seq<Text>, s: Text, uri: bool)
    requires s != [] && AtEnd(s)
    ensures var n := ReadName(s[1..], uri);
            && AfterNames(names, ReadNames(s, uri)) ==
               (if n.BadName? then BadNames(n.code, n.left) else AfterNames(names + [n.name], ReadNames(n.rest, uri)))
            && (n.Name? ==> Solidi(s) == 1 + Solidi(n.rest))
  {
    var n := ReadName(s[1..], uri);
    if n.Name? {
      NameSolidi(s[1..], uri);
      var r := ReadNames(n.rest, uri);
      if r.Names? {
        assert names + ([n.name] + r.names) == names + [n.name] + r.names;
      }
    }
  }

  lemma NoMoreNames(names: seq<Text>, uri: bool)
    ensures AfterNames(names, ReadNames([], uri)) == Names(names) && Solidi([]) == 0
  {
  }

  lemma NoNamesYet(s: Text, uri: bool)
    requires AtEnd(s)
    ensures AfterNames([], ReadNames(s, uri)) == ReadNames(s, uri)
  {
  }

  lemma ReadOfBody(s: Text)
    ensures var body := if IsUri(s) then s[1..] else s;
            && Read(s) == (if AtEnd(body) then ReadNames(body, IsUri(s)) else BadNames(TokenMustBeginWithSolidus, |body|))
            && Solidi(body) == Solidi(s)
  {
  }

  /** The loop over the tokens. */
  method TokensInto(source: Text, start: nat, uri: bool, toks: array<Token>, buffer: array<byte>)
    returns (failure: Failure, i: nat)
    requires start <= |source| == buffer.Length && AtEnd(source[start..]) && toks.Length == Solidi(source[start..])
    modifies toks, buffer
    ensures var r := ReadNames(source[start..], uri);
            if r.BadNames? then failure == Failure(r.code) && i == |source| - r.left
            else failure == None && AllDenote(toks[..], buffer[..], r.names)
  {
    hide ReadName, ReadNames, Denotes, AllDenote, AfterNames, Solidi;
    i := start;
    var name, count := 0, 0;
    ghost var names: seq<Text> := [];
    NoNamesYet(source[i..], uri);
    assert AllDenote(toks[..0], buffer[..0], []) by { NoneDenote(buffer[..0]); }
    while i < |source|
      invariant name <= i <= |source| && AtEnd(source[i..])
      invariant count + Solidi(source[i..]) == toks.Length
      invariant ReadNames(source[start..], uri) == AfterNames(names, ReadNames(source[i..], uri))
      invariant AllDenote(toks[..count], buffer[..name], names)
    {
      ghost var before := buffer[..name];
      ghost var s := source[i..];
      assert s[1..] == source[i + 1..];
      AfterToken(names, s, uri);
      var token;
      failure, i, name, token := TokenInto(source, i, uri, buffer, name);
      if failure.Failure? { return; }
      ghost var n := ReadName(s[1..], uri);
      ghost var sofar := toks[..count];
      OneMoreDenotes(sofar, token, before, buffer[..name], names, n.name);
      toks[count] := token;
      count := count + 1;
      assert toks[..count] == sofar + [token];
      names := names + [n.name];
    }
    failure := None;
    assert source[i..] == [];
    NoMoreNames(names, uri);
    AllStillDenote(toks[..count], buffer[..name], buffer[..], names);
    assert toks[..count] == toks[..];
  }

  class GenericPointer {
    var tokens: array<Token>
    var tokenCount: nat
    var nameBuffer: array<byte>
    var failure: Failure
    var errorOffset: nat

    /** The pointer is valid and was made of the given names. */
    ghost predicate Holds(names: seq<Text>)
      reads this, tokens, nameBuffer
    {
      && failure == None && tokenCount == tokens.Length
      && AllDenote(tokens[..], nameBuffer[..], names)
    }

    /** Parses a pointer in either form. The null character that ends a C string stands
      * behind the source. */
    constructor (source: Text)
      ensures fresh(tokens) && fresh(nameBuffer)
      ensures Read(source).Names? ==> Holds(Read(source).names) && nameBuffer.Length == |source| && tokenCount == Solidi(source)
      ensures Read(source).BadNames? ==>
        failure == Failure(Read(source).code) && errorOffset == |source| - Read(source).left && tokenCount == tokens.Length == 0
    {
      hide ReadName, ReadNames, Denotes, AllDenote, AfterNames, Solidi, Read;
      new;
      ReadOfBody(source);
      tokenCount := CountSolidi(source);
      var toks := new Token[tokenCount](_ => Token(0, 0, INVALID_INDEX));
      var buffer := new byte[|source|](_ => 0);
      tokens, nameBuffer, failure, errorOffset := toks, buffer, None, 0;
      var i := 0;
      var uri := false;
      if Peek(source, 0) == HASH {
        uri := true;
        i := i + 1;
      }
      ghost var body := source[i..];
      if i != |source| && source[i] != SOLIDUS {
        Fail(TokenMustBeginWithSolidus, i);
        return;
      }
      var bad;
      bad, i := TokensInto(source, i, uri, toks, buffer);
      if bad.Failure? {
        Fail(bad.code, i);
      }
    }

    /** Writes the pointer in either form. The URI fragment form fails on a name that is not UTF-8. */
    method Stringify(uriFragment: bool, ghost names: seq<Text>) returns (ok: bool, os: Text)
      requires Holds(names) && Short(names)
      ensures !uriFragment ==> ok && os == Write(names)
      ensures uriFragment ==> ok == WriteUri(names).Written? && (ok ==> os == WriteUri(names).text)
    {
      hide Denotes, AllDenote, WriteUriTokens, Write, Target, WriteUri;
      os := if uriFragment then [HASH] else [];
      var k := 0;
      ghost var whole := Prefixed(os, Target(names, uriFragment));
      TargetMeans(names, uriFragment);
      assert tokens.Length == |names| by { AllDenoteLength(tokens[..], nameBuffer[..], names); }
      assert names[0..] == names;
      while k < tokenCount
        invariant 0 <= k <= tokenCount
        invariant whole == Prefixed(os, Target(names[k..], uriFragment))
      {
        TokenName(tokens[..], nameBuffer[..], names, k);
        var t := tokens[k];
        var name := nameBuffer[t.name..t.name + t.length];
        TargetNext(os, names[k..], uriFragment);
        assert names[k..][1..] == names[k + 1..];
        ok, os := WriteName(uriFragment, name, os + [SOLIDUS], Target(names[k + 1..], uriFragment), whole);
        if !ok { return; }
        k := k + 1;
      }
      assert names[k..] == [];
      TargetEnd(os, uriFragment);
      assert whole == Written(os);
      ok := true;
    }

    method Fail(code: ErrorCode, offset: nat)
      modifies this
      ensures failure == Failure(code) && errorOffset == offset && tokenCount == tokens.Length == 0 && fresh(tokens)
      ensures nameBuffer == old(nameBuffer)
    {
      tokens := new Token[0];
      tokenCount, failure, errorOffset := 0, Failure(code), offset;
    }
  }

  lemma AllDenoteLength(tokens: seq<Token>, buffer: Text, names: seq<Text>)
    requires AllDenote(tokens, buffer, names)
    ensures |tokens| == |names|
  {
  }

  /** The length of every name fits 32 bits. */
  predicate Short(names: seq<Text>) { forall k :: 0 <= k < |names| ==> |names[k]| < SIZE_MODULUS }

  /** Names taken from a text that fits 32 bits do. */
  lemma {:induction false} ShortText(s: Text, uri: bool)
    requires AtEnd(s) && ReadNames(s, uri).Names? && |s| < SIZE_MODULUS
    ensures Short(ReadNames(s, uri).names)
    decreases |s|
  {
    if s != [] {
      NameLength(s[1..], uri);
      ShortText(ReadName(s[1..], uri).rest, uri);
    }
  }

  lemma {:induction false} NameLength(s: Text, uri: bool)
    requires ReadName(s, uri).Name?
    ensures |ReadName(s, uri).name| <= |s|
    decreases |s|
  {
    if !AtEnd(s) {
      var u := ReadUnit(s, uri);
      if !(uri && s[0] == PERCENT) { assert |u.bytes| == 1; }
      NameLength(u.rest, uri);
    }
  }

  lemma TokenName(tokens: seq<Token>, buffer: Text, names: seq<Text>, k: nat)
    requires AllDenote(tokens, buffer, names) && k < |tokens| && Short(names)
    ensures |tokens| == |names|
    ensures var t := tokens[k]; t.name + t.length <= |buffer| && buffer[t.name..t.name + t.length] == names[k]
  {
  }

  /** What the writer still owes for these names. */
  function Target(names: seq<Text>, uri: bool): Written {
    if uri then WriteUriTokens(names) else Written(Write(names))
  }

  function NameTarget(name: Text, rest: Written, uri: bool): Written {
    if uri then EscapeUri(name, rest) else if rest.Written? then Written(Escape(name, rest.text)) else rest
  }

  lemma TargetMeans(names: seq<Text>, uri: bool)
    ensures uri ==> WriteUri(names) == Prefixed([HASH], Target(names, uri))
    ensures !uri ==> Target(names, uri) == Written(Write(names)) == Prefixed([], Target(names, uri))
  {
  }

  lemma TargetNext(os: Text, names: seq<Text>, uri: bool)
    requires names != []
    ensures Prefixed(os, Target(names, uri)) == Prefixed(os + [SOLIDUS], NameTarget(names[0], Target(names[1..], uri), uri))
  {
    var w := NameTarget(names[0], Target(names[1..], uri), uri);
    if w.Written? {
      assert os + ([SOLIDUS] + w.text) == os + [SOLIDUS] + w.text;
    }
  }

  lemma TargetEnd(os: Text, uri: bool)
    ensures Prefixed(os, Target([], uri)) == Written(os)
  {
  }

  lemma PrefixedTwice(a: Text, b: Text, w: Written)
    ensures Prefixed(a, Prefixed(b, w)) == Prefixed(a + b, w)
  {
    if w.Written? {
      assert a + (b + w.text) == a + b + w.text;
    }
  }

  lemma PrefixedFails(os: Text)
    ensures Prefixed(os, NotUtf8Text) == NotUtf8Text
  {
  }

  /** One step through a name. */
  lemma NameTargetStep(os: Text, name: Text, rest: Written, uri: bool)
    requires name != []
    ensures var c := name[0];
            if c == TILDE || c == SOLIDUS then
              Prefixed(os, NameTarget(name, rest, uri)) ==
              Prefixed(os + [TILDE, if c == TILDE then ZERO else ONE], NameTarget(name[1..], rest, uri))
            else if uri && NeedPercentEncode(c) then
              var st := Decode(name, 0);
              && (st.ok ==> st.next <= |name|)
              && (st.ok ==>
                   Prefixed(os, NameTarget(name, rest, uri)) ==
                   Prefixed(os + PercentEncode(name[..st.next], []), NameTarget(name[st.next..], rest, uri)))
              && (!st.ok ==> NameTarget(name, rest, uri).NotUtf8Text?)
            else
              Prefixed(os, NameTarget(name, rest, uri)) == Prefixed(os + [c], NameTarget(name[1..], rest, uri))
  {
    hide Decode;
    var c := name[0];
    var step := if c == TILDE || c == SOLIDUS then [TILDE, if c == TILDE then ZERO else ONE] else [c];
    if (c != TILDE && c != SOLIDUS) && uri && NeedPercentEncode(c) {
      DecodeIsWellFormed(name, 0);
      var st := Decode(name, 0);
      if st.ok {
        PrefixedTwice(os, PercentEncode(name[..st.next], []), NameTarget(name[st.next..], rest, uri));
      }
    } else {
      PrefixedTwice(os, step, NameTarget(name[1..], rest, uri));
    }
  }

  lemma NameTargetEnd(rest: Written, uri: bool)
    ensures NameTarget([], rest, uri) == rest
  {
  }

  /** The loop over the characters of a name. */
  method WriteName(uriFragment: bool, name: Text, os0: Text, ghost rest: Written, ghost whole: Written)
    returns (ok: bool, os: Text)
    requires whole == Prefixed(os0, NameTarget(name, rest, uriFragment))
    ensures ok ==> whole == Prefixed(os, rest)
    ensures !ok ==> uriFragment && whole.NotUtf8Text?
  {
    hide NameTarget, Decode, PercentEncode, NeedPercentEncode, Prefixed;
    os := os0;
    var j := 0;
    assert name[0..] == name;
    while j < |name|
      invariant 0 <= j <= |name|
      invariant whole == Prefixed(os, NameTarget(name[j..], rest, uriFragment))
    {
      var c := name[j];
      var tail := name[j..];
      NameTargetStep(os, tail, rest, uriFragment);
      assert tail[1..] == name[j + 1..];
      if c == TILDE {
        os := os + [TILDE, ZERO];
      } else if c == SOLIDUS {
        os := os + [TILDE, ONE];
      } else if uriFragment && NeedPercentEncode(c) {
        var valid, tell, bytes := Validate(tail, 0, []);
        if !valid {
          PrefixedFails(os);
          return false, os;
        }
        DecodeIsWellFormed(tail, 0);
        assert bytes == tail[..tell] && tail[tell..] == name[j + tell..];
        var encoded := PutPercent(bytes);
        os := os + encoded;
        j := j + tell - 1;
      } else {
        os := os + [c];
      }
      j := j + 1;
    }
    NameTargetEnd(rest, uriFragment);
    assert name[j..] == [];
    ok := true;
  }

  lemma PutOne(os: Text, bytes: Text)
    requires bytes != []
    ensures os + PercentEncode(bytes, []) ==
      (os + [PERCENT, HexDigit(bytes[0] / 16), HexDigit(bytes[0] % 16)]) + PercentEncode(bytes[1..], [])
  {
  }

  /** The stream that percent-encodes what is put into it. */
  method PutPercent(bytes: Text) returns (os: Text)
    ensures os == PercentEncode(bytes, [])
  {
    hide PercentEncode, HexDigit;
    os := [];
    var k := 0;
    assert bytes[0..] == bytes;
    while k < |bytes|
      invariant 0 <= k <= |bytes|
      invariant os + PercentEncode(bytes[k..], []) == PercentEncode(bytes, [])
    {
      var u := bytes[k];
      ghost var sofar, tail := os, bytes[k..];
      PutOne(sofar, tail);
      assert tail[1..] == bytes[k + 1..];
      os := os + [PERCENT, HexDigit(u / 16), HexDigit(u % 16)];
      k := k + 1;
    }
    assert bytes[k..] == [];
    assert PercentEncode([], []) == [] by { PutNone(); }
  }

  lemma PutNone()
    ensures PercentEncode([], []) == []
  {
  }

  lemma NoneDenote(buffer: Text)
    ensures AllDenote([], buffer, [])
  {
  }
}
