/**
 * The C integer types of the firmware and the utility macros of
 * include/global.h.  The target is an 8-bit AVR, where `int` is 16 bits
 * wide; every wrap-around the firmware relies on is written out here.
 */
module Global {

  /** uint8_t, uint16_t, uint32_t and int8_t as ranges of the mathematical integers. */
  type Byte = x: int | 0 <= x < 0x100
  type Word = x: int | 0 <= x < 0x1_0000
  type DWord = x: int | 0 <= x < 0x1_0000_0000
  type SByte = x: int | -0x80 <= x < 0x80

  /** Conversion of an integer to uint8_t / uint16_t / uint32_t (keeps the low bits). */
  function Wrap8(x: int): Byte { x % 0x100 }
  function Wrap16(x: int): Word { x % 0x1_0000 }
  function Wrap32(x: int): DWord { x % 0x1_0000_0000 }

  /** The int8_t that holds the byte pattern `b` (two's complement). */
  function Signed8(b: Byte): (r: SByte)
    ensures Wrap8(r) == b
  {
    if b < 0x80 then b else b - 0x100
  }

  /** C's `a % 16`: the remainder truncates toward zero, so it takes the sign of `a`. */
  function CMod16(a: int): (r: int)
    ensures -16 < r < 16
    ensures r % 16 == a % 16
    ensures a >= 0 ==> r >= 0
    ensures a <= 0 ==> r <= 0
  {
    if a >= 0 then a % 16 else -((-a) % 16)
  }

  /**
   * `x >>= 4` on a 16-bit signed int: avr-gcc shifts arithmetically, so the
   * sign bit is copied into the vacated top nibble.
   */
  function Sar4(x: bv16): (r: bv16)
    ensures r << 4 == x & 0xFFF0
    ensures r & 0x8000 == x & 0x8000
    ensures r & 0xF000 == (if x & 0x8000 == 0 then 0 else 0xF000)
  {
    if x & 0x8000 == 0 then x >> 4 else (x >> 4) | 0xF000
  }

  /** BCD2INT: two packed BCD digits to their value. */
  function Bcd2Int(n: nat): nat { (n / 16) * 10 + n % 16 }

  /** INT2BCD: a value below 100 to two packed BCD digits. */
  function Int2Bcd(n: nat): nat { (n / 10) * 16 + n % 10 }

  /** A byte whose two nibbles are both decimal digits. */
  predicate IsBcd(b: nat) { b < 0x100 && b / 16 <= 9 && b % 16 <= 9 }

  lemma Int2BcdRoundTrip(n: nat)
    requires n <= 99
    ensures IsBcd(Int2Bcd(n))
    ensures Bcd2Int(Int2Bcd(n)) == n
  {
  }

  lemma Bcd2IntRoundTrip(b: nat)
    requires IsBcd(b)
    ensures Bcd2Int(b) <= 99
    ensures Int2Bcd(Bcd2Int(b)) == b
  {
  }

  /** INT2HEX: a single digit to its character, '0'..'9' then 'A' onwards. */
  function Int2HexMacro(n: Byte): (c: char)
    ensures n < 10 ==> '0' <= c <= '9'
    ensures 10 <= n < 16 ==> 'A' <= c <= 'F'
    ensures c as int - (if n < 10 then '0' as int else 'A' as int - 10) == n
  {
    if n < 10 then ('0' as int + n) as char else ('A' as int - 10 + n) as char
  }

  /** binary(var, bit): bit number `bit` of a 16-bit value. */
  function Binary(v: bv16, bit: nat): (r: bv16)
    requires bit < 16
    ensures r == 0 || r == 1
  {
    (v >> bit) & 1
  }

  /** Setting a bit makes binary() report 1 for it, clearing it makes it report 0. */
  lemma BinaryReadsBit(v: bv16, bit: nat)
    requires bit < 16
    ensures Binary(v | (1 << bit), bit) == 1
    ensures Binary(v & !(1 << bit), bit) == 0
  {
  }
}
