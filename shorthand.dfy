/** The C integer types the library works with (its dataTypeShortHand.h is not
  * part of this model): bytes of sequence text, and unsigned longs, which wrap
  * around below 0. */
module DataTypeShortHand {

  /** An unsigned char: one byte of a sequence or a C string. */
  newtype uchar = x: int | 0 <= x < 256

  /** The byte of an ASCII character literal. */
  function Ch(c: char): uchar
    requires c as int < 256
  {
    c as int as uchar
  }

  /** Number of values of a C `unsigned long`. */
  const ULongMod: int := 0x1_0000_0000_0000_0000

  /** A value stored in an unsigned long. */
  function ULong(x: int): (r: int)
    ensures 0 <= r < ULongMod
    ensures 0 <= x < ULongMod ==> r == x
    ensures -ULongMod <= x < 0 ==> r == x + ULongMod
  {
    x % ULongMod
  }

  /** Length of a NUL-terminated string: the position of its first 0 byte. */
  function StrLen(s: seq<uchar>): (n: nat)
    requires 0 in s
    ensures n < |s| && s[n] == 0
    ensures forall i :: 0 <= i < n ==> s[i] != 0
  {
    if s[0] == 0 then 0 else 1 + StrLen(s[1..])
  }
}
