/** The alignment settings of general/alnSetStruct.h (the default build, where
  * sequences are converted to lookup indexes before aligning): the settings
  * fields, the 27 x 27 score and match matrices, and the conversion of a
  * sequence to lookup indexes and back. */
module AlnSetStruct {
  import opened DataTypeShortHand
  import opened GenAln

  /** defClearNonAlph: clears the case bit and everything above it. */
  const ClearNonAlph: int := 31
  /** defMatrixCol in the default build: one row for each letter plus index 0. */
  const MatrixCol: int := 27
  /** defBaseMatch and defBaseSnp. */
  const BaseMatch: int := 1
  const BaseSnp: int := 0

  /** `c & defClearNonAlph`: a letter's position in the alphabet, whatever its case. */
  function LookupIndex(c: uchar): (i: uchar)
    ensures i < 32
  {
    c % 32
  }

  /** `c | 64`: sets bit 6. */
  function SetBit64(c: uchar): (r: uchar)
    ensures (r / 64) % 2 == 1 && r % 64 == c % 64
  {
    if (c / 64) % 2 == 1 then c else c + 64
  }

  predicate IsUpperLetter(c: uchar) { Ch('A') <= c <= Ch('Z') }
  predicate IsLowerLetter(c: uchar) { Ch('a') <= c <= Ch('z') }
  predicate IsLetter(c: uchar) { IsUpperLetter(c) || IsLowerLetter(c) }

  /** The upper-case form of a letter. */
  function UpperOf(c: uchar): (u: uchar)
    requires IsLetter(c)
    ensures IsUpperLetter(u)
  {
    if IsLowerLetter(c) then c - 32 else c
  }

  /** A letter's index is 1..26, the same for both cases, and setting bit 6
    * turns the index back into the upper-case letter. */
  lemma LetterIndex(c: uchar)
    requires IsLetter(c)
    ensures 1 <= LookupIndex(c) <= 26
    ensures LookupIndex(c) == LookupIndex(UpperOf(c))
    ensures SetBit64(LookupIndex(c)) == UpperOf(c)
  {
  }

  /** A NUL-terminated string with every byte before the NUL converted, to a
    * lookup index or back; the NUL and whatever follows it are kept. */
  function MapToNul(s: seq<uchar>, lookup: bool): (r: seq<uchar>)
    requires 0 in s
    ensures |r| == |s|
  {
    var n := StrLen(s);
    seq(|s|, i requires 0 <= i < |s| =>
      if i < n then (if lookup then LookupIndex(s[i]) else SetBit64(s[i])) else s[i])
  }

  /** The string seqToLookupIndex leaves. */
  function ToLookup(s: seq<uchar>): seq<uchar>
    requires 0 in s
  {
    MapToNul(s, true)
  }

  /** The string lookupIndexToSeq leaves. */
  function FromLookup(s: seq<uchar>): seq<uchar>
    requires 0 in s
  {
    MapToNul(s, false)
  }

  /** seqToLookupIndex: `*s &= defClearNonAlph` on every byte before the NUL. */
  method SeqToLookupIndex(s: array<uchar>)
    requires 0 in s[..]
    modifies s
    ensures 0 in s[..]
    ensures s[..] == ToLookup(old(s[..]))
  {
    ghost var s0 := s[..];
    ghost var n := StrLen(s0);
    var i := 0;
    while s[i] != 0
      invariant 0 <= i <= n
      invariant forall k :: 0 <= k < i ==> s[k] == LookupIndex(s0[k])
      invariant forall k :: i <= k < s.Length ==> s[k] == s0[k]
      decreases n - i
    {
      s[i] := LookupIndex(s[i]);
      i := i + 1;
    }
    assert s[..] == ToLookup(s0);
  }

  /** lookupIndexToSeq: `*s |= 64` on every byte before the NUL. */
  method LookupIndexToSeq(s: array<uchar>)
    requires 0 in s[..]
    modifies s
    ensures 0 in s[..]
    ensures s[..] == FromLookup(old(s[..]))
  {
    ghost var s0 := s[..];
    ghost var n := StrLen(s0);
    var i := 0;
    while s[i] != 0
      invariant 0 <= i <= n
      invariant forall k :: 0 <= k < i ==> s[k] == SetBit64(s0[k])
      invariant forall k :: i <= k < s.Length ==> s[k] == s0[k]
      decreases n - i
    {
      s[i] := SetBit64(s[i]);
      i := i + 1;
    }
    assert s[..] == FromLookup(s0);
  }

  /** Converting a string of letters to indexes and back gives the string in
    * upper case, with the NUL and what follows it untouched. */
  lemma LookupRoundTrip(s: seq<uchar>)
    requires 0 in s
    requires forall i :: 0 <= i < StrLen(s) ==> IsLetter(s[i])
    ensures 0 in ToLookup(s)
    ensures StrLen(ToLookup(s)) == StrLen(s)
    ensures var r := FromLookup(ToLookup(s));
            && |r| == |s|
            && (forall i :: 0 <= i < StrLen(s) ==> r[i] == UpperOf(s[i]))
            && (forall i :: StrLen(s) <= i < |s| ==> r[i] == s[i])
  {
    var n := StrLen(s);
    var t := ToLookup(s);
    forall i | 0 <= i < n
      ensures t[i] != 0 && SetBit64(t[i]) == UpperOf(s[i])
    {
      LetterIndex(s[i]);
    }
    StrLenAt(t, n);
  }

  /** A byte whose index is 0 (for example a space or '@') becomes a NUL, so the
    * converted string ends there. */
  lemma LookupTruncatesAtZeroIndex(s: seq<uchar>, k: nat)
    requires 0 in s
    requires k < StrLen(s) && LookupIndex(s[k]) == 0
    ensures 0 in ToLookup(s)
    ensures StrLen(ToLookup(s)) <= k
  {
    var t := ToLookup(s);
    StrLenAtMost(t, k);
  }

  /** The NUL is found where the first 0 byte is. */
  lemma {:induction false} StrLenAt(s: seq<uchar>, n: nat)
    requires n < |s| && s[n] == 0
    requires forall i :: 0 <= i < n ==> s[i] != 0
    ensures 0 in s && StrLen(s) == n
  {
    if n > 0 {
      StrLenAt(s[1..], n - 1);
    }
  }

  lemma {:induction false} StrLenAtMost(s: seq<uchar>, k: nat)
    requires k < |s| && s[k] == 0
    ensures 0 in s && StrLen(s) <= k
  {
    if s[0] != 0 {
      StrLenAtMost(s[1..], k - 1);
    }
  }

  /** The scalar settings of an alnSet, in field order (lenFileNameUS aside).
    * initAlnSet sets them to the def* values of alnSeqDefaults.h, which is not
    * part of this model, so those values are a parameter. */
  datatype Settings = Settings(
    lineWrap: int, pBasePos: int, pFullAln: int, format: int, justScores: int,
    useNeedle: int, useWater: int, useHirsch: int, useMemWater: int, useTwoBit: int,
    bestDir: Pref, noGapExtend: int, gapOpen: int, gapExtend: int,
    queryRefScan: int, minScore: int, filterByQuery: int, filterByRef: int,
    filterByQueryRef: int, pAltAln: int)

  /** One setBpScore or setIfBpMatch call of initAlnSet: a query letter, a
    * reference letter and the value. */
  datatype PairValue = PairValue(qry: uchar, ref: uchar, value: int)

  predicate HitsCell(p: PairValue, row: int, col: int) {
    LookupIndex(p.qry) as int == row && LookupIndex(p.ref) as int == col
  }

  /** A cell after a list of pair settings: the value of the last one that lands
    * on it, or `base`. */
  function Overridden(ps: seq<PairValue>, row: int, col: int, base: int): int {
    if |ps| == 0 then base
    else if HitsCell(ps[|ps| - 1], row, col) then ps[|ps| - 1].value
    else Overridden(ps[..|ps| - 1], row, col, base)
  }

  /** A cell that no pair setting lands on keeps its initial value. */
  lemma {:induction false} OverriddenUntouched(ps: seq<PairValue>, row: int, col: int, base: int)
    requires forall k :: 0 <= k < |ps| ==> !HitsCell(ps[k], row, col)
    ensures Overridden(ps, row, col, base) == base
  {
    if |ps| > 0 {
      OverriddenUntouched(ps[..|ps| - 1], row, col, base);
    }
  }

  /** A pair setting that is the last to land on its cell decides it. */
  lemma {:induction false} OverriddenLastWins(ps: seq<PairValue>, k: nat, base: int)
    requires k < |ps|
    requires forall j :: k < j < |ps| ==>
               !HitsCell(ps[j], LookupIndex(ps[k].qry) as int, LookupIndex(ps[k].ref) as int)
    ensures Overridden(ps, LookupIndex(ps[k].qry) as int, LookupIndex(ps[k].ref) as int, base) == ps[k].value
  {
    if k < |ps| - 1 {
      OverriddenLastWins(ps[..|ps| - 1], k, base);
    }
  }

  predicate PairsFit(ps: seq<PairValue>) {
    forall k :: 0 <= k < |ps| ==>
      LookupIndex(ps[k].qry) as int < MatrixCol && LookupIndex(ps[k].ref) as int < MatrixCol
  }

  /** alnSet: the settings of an alignment run, with the score matrix
    * (scoreMatrixC) and the match matrix (matchMatrixBl). */
  class AlnSet {
    /** lineWrapUS through minScoreL, lenFileNameUS aside. */
    var settings: Settings
    var lenFileName: int
    var scoreMatrix: array2<int>
    var matchMatrix: array2<int>

    /** Both matrices are defMatrixCol square and are separate storage. */
    ghost predicate Valid()
      reads this
    {
      && scoreMatrix.Length0 == MatrixCol && scoreMatrix.Length1 == MatrixCol
      && matchMatrix.Length0 == MatrixCol && matchMatrix.Length1 == MatrixCol
      && scoreMatrix != matchMatrix
    }

    /** The storage of a struct alnSet, before initAlnSet. */
    constructor ()
      ensures Valid() && fresh(scoreMatrix) && fresh(matchMatrix)
    {
      scoreMatrix := new int[MatrixCol, MatrixCol];
      matchMatrix := new int[MatrixCol, MatrixCol];
    }

    /** getBaseScore: the score of a pair of converted bases (lookup indexes). */
    function GetBaseScore(qryBase: uchar, refBase: uchar): int
      reads this, scoreMatrix
      requires Valid() && qryBase as int < MatrixCol && refBase as int < MatrixCol
    {
      scoreMatrix[qryBase, refBase]
    }

    /** matchOrSnp: defBaseMatch or defBaseSnp for a pair of converted bases. */
    function MatchOrSnp(qryBase: uchar, refBase: uchar): int
      reads this, matchMatrix
      requires Valid() && qryBase as int < MatrixCol && refBase as int < MatrixCol
    {
      matchMatrix[qryBase, refBase]
    }

    /** The score matrix as rows of values. */
    function ScoreRows(): (m: seq<seq<int>>)
      reads this, scoreMatrix
      requires Valid()
      ensures |m| == MatrixCol
      ensures forall i :: 0 <= i < MatrixCol ==> |m[i]| == MatrixCol
    {
      var m := scoreMatrix;
      seq(MatrixCol, i requires 0 <= i < m.Length0 reads m =>
        seq(MatrixCol, j requires 0 <= j < m.Length1 reads m => m[i, j]))
    }

    /** The match matrix as rows of values. */
    function MatchRows(): (m: seq<seq<int>>)
      reads this, matchMatrix
      requires Valid()
      ensures |m| == MatrixCol
      ensures forall i :: 0 <= i < MatrixCol ==> |m[i]| == MatrixCol
    {
      var m := matchMatrix;
      seq(MatrixCol, i requires 0 <= i < m.Length0 reads m =>
        seq(MatrixCol, j requires 0 <= j < m.Length1 reads m => m[i, j]))
    }

    /** setBpScore: the cell of the two letters' lookup indexes takes the score,
      * so getBaseScore on the converted letters returns it; no other cell
      * changes. */
    method SetBpScore(qryBase: uchar, refBase: uchar, score: int)
      requires Valid()
      requires LookupIndex(qryBase) as int < MatrixCol && LookupIndex(refBase) as int < MatrixCol
      modifies scoreMatrix
      ensures GetBaseScore(LookupIndex(qryBase), LookupIndex(refBase)) == score
      ensures forall i, j ::
                (0 <= i < MatrixCol && 0 <= j < MatrixCol &&
                 (i != LookupIndex(qryBase) as int || j != LookupIndex(refBase) as int)) ==>
                scoreMatrix[i, j] == old(scoreMatrix[i, j])
    {
      scoreMatrix[LookupIndex(qryBase), LookupIndex(refBase)] := score;
    }

    /** setIfBpMatch: the same for the match matrix, read back by matchOrSnp. */
    method SetIfBpMatch(qryBase: uchar, refBase: uchar, isMatch: int)
      requires Valid()
      requires LookupIndex(qryBase) as int < MatrixCol && LookupIndex(refBase) as int < MatrixCol
      modifies matchMatrix
      ensures MatchOrSnp(LookupIndex(qryBase), LookupIndex(refBase)) == isMatch
      ensures forall i, j ::
                (0 <= i < MatrixCol && 0 <= j < MatrixCol &&
                 (i != LookupIndex(qryBase) as int || j != LookupIndex(refBase) as int)) ==>
                matchMatrix[i, j] == old(matchMatrix[i, j])
    {
      matchMatrix[LookupIndex(qryBase), LookupIndex(refBase)] := isMatch;
    }

    /** initAlnSet: every setting takes its default, the score matrix is all 0
      * and the match matrix is defBaseMatch on the diagonal and defBaseSnp off
      * it, and then the DNA pair settings (`scorePairs`, `matchPairs`) are
      * applied in order. */
    method InitAlnSet(d: Settings, scorePairs: seq<PairValue>, matchPairs: seq<PairValue>)
      requires Valid() && PairsFit(scorePairs) && PairsFit(matchPairs)
      modifies this, scoreMatrix, matchMatrix
      ensures Valid() && scoreMatrix == old(scoreMatrix) && matchMatrix == old(matchMatrix)
      ensures settings == d && lenFileName == 1024
      ensures forall i, j :: 0 <= i < MatrixCol && 0 <= j < MatrixCol ==>
                scoreMatrix[i, j] == Overridden(scorePairs, i, j, 0)
      ensures forall i, j :: 0 <= i < MatrixCol && 0 <= j < MatrixCol ==>
                matchMatrix[i, j] == Overridden(matchPairs, i, j, if i == j then BaseMatch else BaseSnp)
    {
      settings := d;
      lenFileName := 1024;
      FillMatrices();
      ApplyScorePairs(scorePairs);
      ApplyMatchPairs(matchPairs);
    }

    /** The setBpScore calls of initAlnSet, in order. */
    method ApplyScorePairs(ps: seq<PairValue>)
      requires Valid() && PairsFit(ps)
      modifies scoreMatrix
      ensures forall i, j :: 0 <= i < MatrixCol && 0 <= j < MatrixCol ==>
                scoreMatrix[i, j] == Overridden(ps, i, j, old(scoreMatrix[i, j]))
    {
      var k := 0;
      while k < |ps|
        invariant 0 <= k <= |ps|
        invariant forall i, j :: 0 <= i < MatrixCol && 0 <= j < MatrixCol ==>
                    scoreMatrix[i, j] == Overridden(ps[..k], i, j, old(scoreMatrix[i, j]))
      {
        SetBpScore(ps[k].qry, ps[k].ref, ps[k].value);
        assert ps[..k + 1][..k] == ps[..k];
        k := k + 1;
      }
      assert ps[..k] == ps;
    }

    /** The setIfBpMatch calls of initAlnSet, in order. */
    method ApplyMatchPairs(ps: seq<PairValue>)
      requires Valid() && PairsFit(ps)
      modifies matchMatrix
      ensures forall i, j :: 0 <= i < MatrixCol && 0 <= j < MatrixCol ==>
                matchMatrix[i, j] == Overridden(ps, i, j, old(matchMatrix[i, j]))
    {
      var k := 0;
      while k < |ps|
        invariant 0 <= k <= |ps|
        invariant forall i, j :: 0 <= i < MatrixCol && 0 <= j < MatrixCol ==>
                    matchMatrix[i, j] == Overridden(ps[..k], i, j, old(matchMatrix[i, j]))
      {
        SetIfBpMatch(ps[k].qry, ps[k].ref, ps[k].value);
        assert ps[..k + 1][..k] == ps[..k];
        k := k + 1;
      }
      assert ps[..k] == ps;
    }

    /** The two matrix loops of initAlnSet: zero scores, identity matches. */
    method FillMatrices()
      requires Valid()
      modifies scoreMatrix, matchMatrix
      ensures forall i, j :: 0 <= i < MatrixCol && 0 <= j < MatrixCol ==> scoreMatrix[i, j] == 0
      ensures forall i, j :: 0 <= i < MatrixCol && 0 <= j < MatrixCol ==>
                matchMatrix[i, j] == if i == j then BaseMatch else BaseSnp
    {
      var col := 0;
      while col < MatrixCol
        invariant 0 <= col <= MatrixCol
        invariant forall i, j :: 0 <= i < col && 0 <= j < MatrixCol ==> scoreMatrix[i, j] == 0
      {
        var row := 0;
        while row < MatrixCol
          invariant 0 <= row <= MatrixCol
          invariant forall i, j :: 0 <= i < col && 0 <= j < MatrixCol ==> scoreMatrix[i, j] == 0
          invariant forall j :: 0 <= j < row ==> scoreMatrix[col, j] == 0
        {
          scoreMatrix[col, row] := 0;
          row := row + 1;
        }
        col := col + 1;
      }

      col := 0;
      while col < MatrixCol
        invariant 0 <= col <= MatrixCol
        invariant forall i, j :: 0 <= i < MatrixCol && 0 <= j < MatrixCol ==> scoreMatrix[i, j] == 0
        invariant forall i, j :: 0 <= i < col && 0 <= j < MatrixCol ==>
                    matchMatrix[i, j] == if i == j then BaseMatch else BaseSnp
      {
        var row := 0;
        while row < MatrixCol
          invariant 0 <= row <= MatrixCol
          invariant forall i, j :: 0 <= i < MatrixCol && 0 <= j < MatrixCol ==> scoreMatrix[i, j] == 0
          invariant forall i, j :: 0 <= i < col && 0 <= j < MatrixCol ==>
                      matchMatrix[i, j] == if i == j then BaseMatch else BaseSnp
          invariant forall j :: 0 <= j < row ==> matchMatrix[col, j] == if col == j then BaseMatch else BaseSnp
        {
          matchMatrix[col, row] := if col == row then BaseMatch else BaseSnp;
          row := row + 1;
        }
        col := col + 1;
      }
    }
  }
}
