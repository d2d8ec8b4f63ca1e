/** The flags an integer value is stored with, and what its 64-bit word can be compared for. */
module IntegerFlags {
  const TWO31: int := 0x8000_0000
  const TWO32: int := 0x1_0000_0000
  const TWO63: int := 0x8000_0000_0000_0000
  const TWO64: int := 0x1_0000_0000_0000_0000

  datatype Flags = Flags(isInt: bool, isUint: bool, isInt64: bool, isUint64: bool)

  /** A stored number: the word of data_.n and the flags. */
  datatype Number = Number(word: int, flags: Flags)

  /** The word of a signed 64-bit value. */
  function Word(n: int): int {
    n % TWO64
  }

  /** What IsInt, IsUint, IsInt64 and IsUint64 are documented to say. */
  function RangeFlags(n: int): Flags {
    Flags(-TWO31 <= n < TWO31, 0 <= n < TWO32, -TWO63 <= n < TWO63, 0 <= n < TWO64)
  }

  const NumberInt := Flags(true, false, true, false)
  const NumberUint := Flags(false, true, true, true)
  const NumberInt64 := Flags(false, false, true, false)
  const NumberUint64 := Flags(false, false, false, true)

  /** Whether `u & mask` is non-zero, for a mask of the bits from the k-th up, 2^k being `unit`. */
  predicate AnyBitFrom(u: int, unit: int)
    requires unit > 0
  {
    u / unit != 0
  }

  function FromInt(i: int): (r: Number)
    requires -TWO31 <= i < TWO31
    ensures r == Number(Word(i), RangeFlags(i))
  {
    Number(Word(i), if i >= 0 then NumberInt.(isUint := true, isUint64 := true) else NumberInt)
  }

  function FromUnsigned(u: int): (r: Number)
    requires 0 <= u < TWO32
    ensures r == Number(Word(u), RangeFlags(u))
  {
    Number(u, if AnyBitFrom(u, TWO31) then NumberUint else NumberUint.(isInt := true, isInt64 := true))
  }

  function FromInt64(i64: int): (r: Number)
    requires -TWO63 <= i64 < TWO63
    ensures r == Number(Word(i64), RangeFlags(i64))
  {
    var flags :=
      if i64 >= 0 then
        Flags(!AnyBitFrom(i64, TWO31), !AnyBitFrom(i64, TWO32), true, true)
      else if i64 >= -TWO31 then NumberInt64.(isInt := true)
      else NumberInt64;
    Number(Word(i64), flags)
  }

  function FromUint64(u64: int): (r: Number)
    requires 0 <= u64 < TWO64
    ensures r == Number(Word(u64), RangeFlags(u64))
  {
    Number(u64, Flags(!AnyBitFrom(u64, TWO31), !AnyBitFrom(u64, TWO32), !AnyBitFrom(u64, TWO63), true))
  }

  /** operator== on integers compares words: it confuses a negative number with the unsigned number 2^64 above it, and nothing else. */
  lemma WordEquality(m: int, n: int)
    requires -TWO63 <= m < TWO64 && -TWO63 <= n < TWO64
    ensures Word(m) == Word(n) <==> m == n || m == n + TWO64 || n == m + TWO64
  {
    var k := (m - n) / TWO64;
    assert Word(m) == Word(n) ==> m - n == k * TWO64 && -2 < k < 2;
  }

  /** A stored number determines the integer it came from. */
  lemma StoredNumberIsExact(m: int, n: int)
    requires -TWO63 <= m < TWO64 && -TWO63 <= n < TWO64
    requires Word(m) == Word(n) && RangeFlags(m) == RangeFlags(n)
    ensures m == n
  {
    WordEquality(m, n);
  }
}
