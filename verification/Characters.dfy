/** Letters and digits by their place in the alphabet. */
module Characters {
  const CAPITALS := "ABCDEFGHIJKLMNOPQRSTUVWXYZ"
  const SMALL := "abcdefghijklmnopqrstuvwxyz"
  const DECIMAL := "0123456789"

  /** Hexadecimal digits, with letters of either case. */
  const LOWER_HEX := "0123456789abcdef"
  const UPPER_HEX := "0123456789ABCDEF"

  function Position(c: char, digits: string): (k: nat)
    ensures c in digits ==> k < |digits| && digits[k] == c
  {
    if digits == "" || digits[0] == c then 0 else 1 + Position(c, digits[1..])
  }

  predicate IsHex(c: char) { c in LOWER_HEX || c in UPPER_HEX }

  function HexDigit(c: char): (d: nat)
    ensures IsHex(c) ==> d < 16
  {
    if c in LOWER_HEX then Position(c, LOWER_HEX) else Position(c, UPPER_HEX)
  }

  lemma CapitalAt(k: nat)
    requires k < 26
    ensures CAPITALS[k] as int == 0x41 + k
  {
    assert CAPITALS[..13] == "ABCDEFGHIJKLM" && CAPITALS[13..] == "NOPQRSTUVWXYZ";
    assert k < 13 ==> CAPITALS[k] == CAPITALS[..13][k];
    assert k >= 13 ==> CAPITALS[k] == CAPITALS[13..][k - 13];
  }

  lemma SmallAt(k: nat)
    requires k < 26
    ensures SMALL[k] as int == 0x61 + k
  {
    assert SMALL[..13] == "abcdefghijklm" && SMALL[13..] == "nopqrstuvwxyz";
    assert k < 13 ==> SMALL[k] == SMALL[..13][k];
    assert k >= 13 ==> SMALL[k] == SMALL[13..][k - 13];
  }

  lemma CapitalIs(c: char)
    ensures c in CAPITALS <==> 0x41 <= c as int <= 0x5A
  {
    if 0x41 <= c as int <= 0x5A { CapitalAt(c as int - 0x41); }
    if c in CAPITALS { CapitalAt(Position(c, CAPITALS)); }
  }

  lemma SmallIs(c: char)
    ensures c in SMALL <==> 0x61 <= c as int <= 0x7A
  {
    if 0x61 <= c as int <= 0x7A { SmallAt(c as int - 0x61); }
    if c in SMALL { SmallAt(Position(c, SMALL)); }
  }

  lemma DecimalIs(c: char)
    ensures c in DECIMAL <==> 0x30 <= c as int <= 0x39
    ensures c in DECIMAL ==> Position(c, DECIMAL) == c as int - 0x30
  {
    if 0x30 <= c as int <= 0x39 { assert DECIMAL[c as int - 0x30] == c; }
    if c in DECIMAL { assert DECIMAL[Position(c, DECIMAL)] == c; }
  }

  /** Hexadecimal digits by their code. */
  function HexCode(c: char): (k: int)
    ensures -1 <= k < 16
  {
    if '0' <= c <= '9' then c as int - 0x30
    else if 'A' <= c <= 'F' then c as int - 0x41 + 10
    else if 'a' <= c <= 'f' then c as int - 0x61 + 10
    else -1
  }

  lemma HexAt(k: nat)
    requires k < 16
    ensures HexCode(LOWER_HEX[k]) == HexCode(UPPER_HEX[k]) == k
  {
  }

  lemma HexIs(c: char)
    ensures HexCode(c) == if IsHex(c) then HexDigit(c) else -1
  {
    hide HexCode;
    if IsHex(c) { HexAt(HexDigit(c)); }
    if HexCode(c) >= 0 { HexCodeInTable(c); }
  }

  lemma HexCodeInTable(c: char)
    requires HexCode(c) >= 0
    ensures IsHex(c)
  {
    assert LOWER_HEX[HexCode(c)] == c || UPPER_HEX[HexCode(c)] == c;
  }
}
