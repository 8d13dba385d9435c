/** checkIfBasesMatch of generalAlnFun.c: do a query base and a reference base
  * match, counting the IUPAC ambiguity codes? Both bases are upper-cased with
  * `& defToUper` (95) before the comparison. */
module GeneralAlnFun {
  import opened DataTypeShortHand

  /** `c & defToUper`: keeps bits 0-4 and bit 6 (95 = 0b1011111), which clears
    * the lower-case bit 5 and the high bit 7. */
  function ToUpper(c: uchar): (u: uchar)
    ensures u <= 95
  {
    c % 32 + ((c / 64) % 2) * 64
  }

  /** The upper-cased byte as a character. */
  function UpChar(c: uchar): char {
    ToUpper(c) as int as char
  }

  /** The codes the switch knows: the four bases, U, and the IUPAC ambiguity
    * codes with N and X for any base. */
  predicate IsIupac(c: char) {
    c == 'A' || c == 'C' || c == 'G' || c == 'T' || c == 'U' || c == 'W'
    || c == 'S' || c == 'M' || c == 'K' || c == 'R' || c == 'Y' || c == 'B'
    || c == 'D' || c == 'H' || c == 'V' || c == 'N' || c == 'X'
  }

  /** The reference definition: the bases each code stands for (U reads as T). */
  predicate HasA(c: char) {
    c == 'A' || c == 'W' || c == 'M' || c == 'R' || c == 'D' || c == 'H'
    || c == 'V' || c == 'N' || c == 'X'
  }
  predicate HasC(c: char) {
    c == 'C' || c == 'S' || c == 'M' || c == 'Y' || c == 'B' || c == 'H'
    || c == 'V' || c == 'N' || c == 'X'
  }
  predicate HasG(c: char) {
    c == 'G' || c == 'S' || c == 'K' || c == 'R' || c == 'B' || c == 'D'
    || c == 'V' || c == 'N' || c == 'X'
  }
  predicate HasT(c: char) {
    c == 'T' || c == 'U' || c == 'W' || c == 'K' || c == 'Y' || c == 'B'
    || c == 'D' || c == 'H' || c == 'N' || c == 'X'
  }

  /** Two codes overlap when some base is in both. */
  predicate Overlap(q: char, r: char) {
    || (HasA(q) && HasA(r))
    || (HasC(q) && HasC(r))
    || (HasG(q) && HasG(r))
    || (HasT(q) && HasT(r))
  }

  /** checkIfBasesMatch: the nested switch, query first. Ambiguous query codes
    * list the reference codes that do not match and accept everything else,
    * non-IUPAC bytes included; an unknown query byte matches nothing. */
  function CheckIfBasesMatch(queryBase: uchar, refBase: uchar): (m: int)
    ensures m == 0 || m == 1
    ensures UpChar(queryBase) == 'N' || UpChar(queryBase) == 'X' ==> m == 1
    ensures !IsIupac(UpChar(queryBase)) ==> m == 0
  {
    MatchUpper(UpChar(queryBase), UpChar(refBase))
  }

  /** The switch on the two upper-cased characters. */
  function MatchUpper(q: char, r: char): int {
    match q
    case 'A' => if (r == 'A' || r == 'W' || r == 'M' || r == 'R' || r == 'D' ||
                    r == 'H' || r == 'V' || r == 'N' || r == 'X')
                then 1 else 0
    case 'T' => if (r == 'T' || r == 'U' || r == 'W' || r == 'K' || r == 'B' ||
                    r == 'Y' || r == 'D' || r == 'H' || r == 'N' || r == 'X')
                then 1 else 0
    case 'U' => if (r == 'T' || r == 'U' || r == 'W' || r == 'K' || r == 'B' ||
                    r == 'Y' || r == 'D' || r == 'H' || r == 'N' || r == 'X')
                then 1 else 0
    case 'C' => if (r == 'C' || r == 'S' || r == 'M' || r == 'Y' || r == 'B' ||
                    r == 'H' || r == 'V' || r == 'N' || r == 'X')
                then 1 else 0
    case 'G' => if (r == 'G' || r == 'S' || r == 'K' || r == 'R' || r == 'B' ||
                    r == 'D' || r == 'V' || r == 'N' || r == 'X')
                then 1 else 0
    case 'W' => if (r == 'C' || r == 'G' || r == 'S') then 0 else 1
    case 'S' => if (r == 'A' || r == 'T' || r == 'U' || r == 'W') then 0 else 1
    case 'M' => if (r == 'G' || r == 'T' || r == 'U' || r == 'K') then 0 else 1
    case 'K' => if (r == 'A' || r == 'C' || r == 'M') then 0 else 1
    case 'R' => if (r == 'C' || r == 'T' || r == 'U' || r == 'Y') then 0 else 1
    case 'Y' => if (r == 'A' || r == 'G' || r == 'R') then 0 else 1
    case 'B' => if (r == 'A') then 0 else 1
    case 'D' => if (r == 'C') then 0 else 1
    case 'H' => if (r == 'G') then 0 else 1
    case 'V' => if (r == 'T' || r == 'U') then 0 else 1
    case 'N' => 1
    case 'X' => 1
    case _ => 0
  }

  /** Between IUPAC codes the switch is exactly the overlap of the base sets
    * (IUPAC-IUB 1984, Table 1), in both directions. */
  lemma MatchIsOverlap(queryBase: uchar, refBase: uchar)
    requires IsIupac(UpChar(queryBase)) && IsIupac(UpChar(refBase))
    ensures CheckIfBasesMatch(queryBase, refBase) == 1 <==> Overlap(UpChar(queryBase), UpChar(refBase))
  {
  }

  /** Upper and lower case letters are the same base, on either side. */
  lemma MatchIgnoresCase(c: uchar, other: uchar)
    requires Ch('A') <= c <= Ch('Z')
    ensures UpChar(c + 32) == UpChar(c) == c as int as char
    ensures CheckIfBasesMatch(c + 32, other) == CheckIfBasesMatch(c, other)
    ensures CheckIfBasesMatch(other, c + 32) == CheckIfBasesMatch(other, c)
  {
  }

  /** An A matches exactly A, W, M, R, D, H, V, N and X. */
  lemma AMatches(refBase: uchar)
    ensures CheckIfBasesMatch(Ch('A'), refBase) == 1 <==> HasA(UpChar(refBase))
  {
  }

  /** T and U accept the same references. */
  lemma TAndUAgree(refBase: uchar)
    ensures CheckIfBasesMatch(Ch('T'), refBase) == CheckIfBasesMatch(Ch('U'), refBase)
  {
  }

  /** The match relation is symmetric between IUPAC codes. */
  lemma MatchIsSymmetric(queryBase: uchar, refBase: uchar)
    requires IsIupac(UpChar(queryBase)) && IsIupac(UpChar(refBase))
    ensures CheckIfBasesMatch(queryBase, refBase) == CheckIfBasesMatch(refBase, queryBase)
  {
    MatchIsOverlap(queryBase, refBase);
    MatchIsOverlap(refBase, queryBase);
  }
}
