/** The string buffer that the writer puts its tokens to. */
module StringBuffer {
  import S = Strings

  const DEFAULT_CAPACITY: nat := 256

  /** The capacity after `Reserve`, for a buffer that is allocated with its first room. */
  function Expanded(capacity: nat, initialCapacity: nat, size: nat, count: nat): (c: nat)
    ensures size + count <= c && capacity <= c
    ensures size + count <= capacity ==> c == capacity
    ensures size + count > capacity > 0 ==> 2 * c >= 3 * capacity
    ensures c > size + count && c > capacity > 0 ==> 2 * c <= 3 * capacity + 1
    ensures capacity == 0 < size + count ==> c == size + count >= initialCapacity || c == initialCapacity
  {
    if size + count <= capacity then capacity
    else
      var c := if capacity == 0 then initialCapacity else capacity + (capacity + 1) / 2;
      if c < size + count then size + count else c
  }

  /** The escape table: the letter after the backslash; NUL for a unit that is copied. */
  function Escape(c: char): char {
    if c == '"' || c == '\\' then c
    else if c >= ' ' then '\0'
    else match c
      case '\U{8}' => 'b'
      case '\t' => 't'
      case '\n' => 'n'
      case '\U{c}' => 'f'
      case '\r' => 'r'
      case _ => 'u'
  }

  /** Four digits. */
  function Hex(c: char): (h: string)
    requires c < ' '
    ensures |h| == 4
  {
    ['0', '0', S.HEX_DIGITS[c as int / 16], S.HEX_DIGITS[c as int % 16]]
  }

  lemma EscapeTable(c: char)
    ensures Escape(c) == 'u' ==> c < ' '
    ensures S.WriteUnit(c) ==
      if Escape(c) == '\0' then [c]
      else if Escape(c) == 'u' then "\\u" + Hex(c)
      else ['\\', Escape(c)]
  {
    if Escape(c) == 'u' {
      assert S.WriteUnit(c) == "\\u00" + [S.HEX_DIGITS[c as int / 16], S.HEX_DIGITS[c as int % 16]];
    }
  }

  class StringBuffer {
    var stack: string
    var capacity: nat
    const initialCapacity: nat

    ghost predicate Valid() reads this { |stack| <= capacity }

    constructor (initialCapacity: nat)
      ensures Valid() && stack == "" && capacity == 0 && this.initialCapacity == initialCapacity
    {
      stack, capacity, this.initialCapacity := "", 0, initialCapacity;
    }

    method Reserve(count: nat)
      requires Valid()
      modifies this`capacity
      ensures Valid() && capacity == Expanded(old(capacity), initialCapacity, |stack|, count)
    {
      capacity := Expanded(capacity, initialCapacity, |stack|, count);
    }

    /** One unit into room that was reserved; false where the source's assertion fails. */
    method PutUnsafe(c: char) returns (ok: bool)
      requires Valid()
      modifies this`stack
      ensures Valid() && (ok <==> |old(stack)| + 1 <= capacity)
      ensures stack == if ok then old(stack) + [c] else old(stack)
    {
      ok := |stack| + 1 <= capacity;
      if ok { stack := stack + [c]; }
    }

    method PutUnit(c: char) returns (ok: bool)
      requires Valid()
      modifies this`stack
      ensures Valid() && (ok <==> |old(stack)| + |S.WriteUnit(c)| <= capacity)
      ensures ok ==> stack == old(stack) + S.WriteUnit(c)
    {
      hide S.WriteUnit, Escape;
      EscapeTable(c);
      ghost var was := stack;
      var e := Escape(c);
      if e == '\0' {
        ok := PutUnsafe(c);
        return;
      }
      ok := PutUnsafe('\\');
      if !ok { return; }
      ok := PutUnsafe(e);
      if !ok || e != 'u' { return; }
      ghost var letter := stack;
      assert letter == was + "\\u";
      ok := PutHex(c);
      assert S.WriteUnit(c) == "\\u" + Hex(c);
    }

    method PutHex(c: char) returns (ok: bool)
      requires Valid() && c < ' '
      modifies this`stack
      ensures Valid() && (ok <==> |old(stack)| + 4 <= capacity)
      ensures ok ==> stack == old(stack) + Hex(c)
    {
      ok := PutUnsafe('0');
      if !ok { return; }
      ok := PutUnsafe('0');
      if !ok { return; }
      ok := PutUnsafe(S.HEX_DIGITS[c as int / 16]);
      if !ok { return; }
      ok := PutUnsafe(S.HEX_DIGITS[c as int % 16]);
    }

    /** The loop of WriteString. */
    method PutUnits(s: string) returns (ok: bool)
      requires Valid()
      modifies this`stack
      ensures Valid() && (ok <==> |old(stack)| + |S.WriteUnits(s)| <= capacity)
      ensures ok ==> stack == old(stack) + S.WriteUnits(s)
    {
      hide S.WriteUnit, S.WriteUnits;
      ghost var was := stack;
      var i := 0;
      Rest(s, |s|);
      assert s[0..] == s && s[|s|..] == "";
      while i < |s|
        invariant 0 <= i <= |s| && Valid()
        invariant stack + S.WriteUnits(s[i..]) == was + S.WriteUnits(s)
      {
        Rest(s, i);
        ghost var before, w, rest := stack, S.WriteUnit(s[i]), S.WriteUnits(s[i + 1..]);
        assert before + (w + rest) == (before + w) + rest;
        ok := PutUnit(s[i]);
        if !ok { return; }
        i := i + 1;
      }
      ok := true;
    }

    /** WriteString: reserves once, and then puts without looking; false where an assertion fails. */
    method WriteString(s: string) returns (ok: bool)
      requires Valid()
      modifies this
      ensures Valid()
      ensures ok <==> |old(stack)| + |S.WriteString(s)| <= Expanded(old(capacity), initialCapacity, |old(stack)|, S.Reserved(|s|))
      ensures ok ==> stack == old(stack) + S.WriteString(s)
    {
      hide S.WriteUnits, Expanded;
      Reserve(S.Reserved(|s|));
      ok := PutUnsafe('"');
      if !ok { return; }
      ok := PutUnits(s);
      if !ok { return; }
      ok := PutUnsafe('"');
    }
  }

  lemma Rest(s: string, i: nat)
    requires i <= |s|
    ensures S.WriteUnits(s[i..]) == if i < |s| then S.WriteUnit(s[i]) + S.WriteUnits(s[i + 1..]) else ""
  {
    if i < |s| { assert s[i..][0] == s[i] && s[i..][1..] == s[i + 1..]; }
  }

  /** A string below 715827883 units always finds its room, whatever the buffer held. */
  lemma RoomEnough(capacity: nat, initialCapacity: nat, size: nat, s: string)
    requires S.Short(s)
    ensures size + |S.WriteString(s)| <= Expanded(capacity, initialCapacity, size, S.Reserved(|s|))
  {
    hide S.WriteUnits;
    S.UnitsLength(s);
  }

  /** From 715827883 units on, a string of control characters runs past a fresh buffer. */
  lemma FreshBufferOverrun(s: string)
    requires !S.Short(s) && forall c | c in s :: c == '\U{1}'
    ensures |S.WriteString(s)| > Expanded(0, DEFAULT_CAPACITY, 0, S.Reserved(|s|))
  {
    S.UnitsLength(s);
  }
}
