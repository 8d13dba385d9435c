/** Branchless maximum helpers of general/genMath.h.
  * The C macros select between two values with a mask built from a comparison;
  * the word-level versions below keep that form, the integer versions are what
  * the rest of the model calls. */
module GenMath {

  /** C's conversion of a comparison to 0 or 1. */
  function B2I(b: bool): int { if b then 1 else 0 }

  /** A C `long` as a machine word. */
  type Word = bv64

  const SignBit: Word := 0x8000_0000_0000_0000

  /** `-(cond)` in C: every bit set when `cond` holds, no bit set otherwise. */
  function Mask(cond: bool): Word {
    if cond then 0xFFFF_FFFF_FFFF_FFFF else 0
  }

  /** Signed `<` on two's-complement words (flipping the sign bit turns it into unsigned `<`). */
  predicate SignedLess(x: Word, y: Word) {
    (x ^ SignBit) < (y ^ SignBit)
  }

  /** macroMax as written: `x ^ ((x ^ y) & -(x < y))`; x is kept when x >= y. */
  function MacroMaxWord(x: Word, y: Word): (r: Word)
    ensures SignedLess(x, y) ==> r == y
    ensures !SignedLess(x, y) ==> r == x
  {
    x ^ ((x ^ y) & Mask(SignedLess(x, y)))
  }

  /** macroIfMax as written: `xRet ^ ((xRet ^ yRet) & -(x < y))`. */
  function MacroIfMaxWord(x: Word, y: Word, xRet: Word, yRet: Word): (r: Word)
    ensures SignedLess(x, y) ==> r == yRet
    ensures !SignedLess(x, y) ==> r == xRet
  {
    xRet ^ ((xRet ^ yRet) & Mask(SignedLess(x, y)))
  }

  /** macroMax on integers: x when x >= y, otherwise y. */
  function MacroMax(x: int, y: int): (r: int)
    ensures r >= x && r >= y
    ensures r == x || r == y
  {
    if x < y then y else x
  }

  /** macroIfMax on integers: the return value paired with the larger of x
    * and y, xRet on a tie. */
  function MacroIfMax(x: int, y: int, xRet: int, yRet: int): (r: int)
    ensures x >= y ==> r == xRet
    ensures x < y ==> r == yRet
  {
    if x < y then yRet else xRet
  }

  /** The word macro returns the operand the integer function picks whenever
    * the word comparison agrees with the integer one. */
  lemma MacroIfMaxWordMatchesInt(x: Word, y: Word, xi: int, yi: int, xRet: Word, yRet: Word)
    requires SignedLess(x, y) <==> xi < yi
    ensures MacroIfMaxWord(x, y, xRet, yRet) == (if MacroIfMax(xi, yi, 0, 1) == 0 then xRet else yRet)
  {
  }

  /** The word macro and the integer function choose the same operand whenever the
    * word comparison agrees with the integer one. */
  lemma MacroMaxWordMatchesInt(x: Word, y: Word, xi: int, yi: int)
    requires SignedLess(x, y) <==> xi < yi
    ensures MacroMaxWord(x, y) == (if MacroMax(xi, yi) == xi then x else y)
  {
  }

  /** macroMax(x, x) is x. */
  lemma MacroMaxIdempotent(x: int)
    ensures MacroMax(x, x) == x
  {
  }

  /** Ties keep the first operand: macroMax(x, y) is x exactly when x >= y. */
  lemma MacroMaxTieKeepsFirst(x: int, y: int)
    ensures MacroMax(x, y) == x <==> x >= y
  {
  }
}
