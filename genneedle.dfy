/** The global (Needleman-Wunsch) cell rule of needleman/genNeedle.h.
  * One call scores one cell of a row: the cell above, the diagonal cell and the
  * cell to the left are carried in the caller's variables, which the rule
  * updates for the next cell of the row. */
module GenNeedle {
  import opened GenMath
  import opened GenAln

  /** Values the cell rule leaves behind: the cell's score and direction, the
    * diagonal score for the next cell (nextSnpScore) and the deletion score for
    * the next cell (delScore). */
  datatype CellUpdate = CellUpdate(score: int, dir: int, nextSnp: int, del: int)

  /** Candidate for a match/snp move: the diagonal score plus the pair score. */
  function SnpCandidate(nextSnp: int, baseScore: int): int {
    nextSnp + baseScore
  }

  /** Candidate for an insertion, written as in the source: gapOpen plus gapDiff
    * (gapExtend - gapOpen) when the cell above was not a match/snp. */
  function InsCandidate(above: int, insDir: int, gapOpen: int, gapExtend: int): (r: int)
    ensures r == IndelScore(above, insDir, gapOpen, gapExtend)
  {
    above + (if insDir != MvSnp then gapExtend - gapOpen else 0) + gapOpen
  }

  /** The deletion score handed to the next cell, as the evidently intended
    * expression `gapDiff & -(dirOn != defMvSnp)` computes it. */
  function NextDelScore(score: int, dir: int, gapOpen: int, gapExtend: int): (r: int)
    ensures r == IndelScore(score, dir, gapOpen, gapExtend)
  {
    score + (if dir != MvSnp then gapExtend - gapOpen else 0) + gapOpen
  }

  /** The deletion score as the source writes it, `gapDiff & (-(dirOn) != defMvSnp)`:
    * unary minus binds first, `-(dirOn)` of a direction 0..3 is never 3, so the
    * mask is always 1 and only the low bit of gapDiff is added. */
  function DelScoreAsWritten(score: int, dir: int, gapOpen: int, gapExtend: int): int
    requires IsDir(dir)
  {
    var negDirIsSnp := -dir == MvSnp;
    score + (if !negDirIsSnp then (gapExtend - gapOpen) % 2 else 0) + gapOpen
  }

  /** As written, the deletion score agrees with the gap rule only when the low bit
    * of gapDiff happens to be the whole adjustment the gap rule asks for. */
  lemma DelScoreAsWrittenAgreement(score: int, dir: int, gapOpen: int, gapExtend: int)
    requires IsDir(dir)
    ensures DelScoreAsWritten(score, dir, gapOpen, gapExtend) == IndelScore(score, dir, gapOpen, gapExtend)
        <==> (if dir == MvSnp then (gapExtend - gapOpen) % 2 == 0
              else (gapExtend - gapOpen) % 2 == gapExtend - gapOpen)
  {
  }

  /** An input that shows the discrepancy: gapOpen -10, gapExtend -1, a deletion
    * following a deletion costs -9 as written instead of the extension -1. */
  lemma DelScoreAsWrittenCounterexample()
    ensures DelScoreAsWritten(0, MvDel, -10, -1) == -9
    ensures IndelScore(0, MvDel, -10, -1) == -1
  {
  }

  /** needleMaxScore: scores a cell and prepares nextSnpScore and delScore for the
    * next cell of the row. `above` is scoreOn before the call (the cell above). */
  function NeedleMaxScore(p: Pref, baseScore: int, gapOpen: int, gapExtend: int,
                          above: int, insDir: int, nextSnp: int, del: int): (r: CellUpdate)
    ensures var snp := nextSnp + baseScore;
            var ins := IndelScore(above, insDir, gapOpen, gapExtend);
            && Cell(r.score, r.dir) == Best(p, snp, ins, del)
            && r.nextSnp == above
            && r.del == IndelScore(r.score, r.dir, gapOpen, gapExtend)
  {
    var snp := SnpCandidate(nextSnp, baseScore);
    var ins := InsCandidate(above, insDir, gapOpen, gapExtend);
    var c := CharMaxScore(p, snp, ins, del);
    CellUpdate(c.score, c.dir, above, NextDelScore(c.score, c.dir, gapOpen, gapExtend))
  }

  /** needleMaxEndRowScore: the last cell of a row; nextSnpScore and delScore are
    * left as they were, so only the cell is returned. */
  function NeedleMaxEndRowScore(p: Pref, baseScore: int, gapOpen: int, gapExtend: int,
                                above: int, insDir: int, nextSnp: int, del: int): (r: Cell)
    ensures r == Best(p, nextSnp + baseScore, IndelScore(above, insDir, gapOpen, gapExtend), del)
  {
    CharMaxScore(p, SnpCandidate(nextSnp, baseScore), InsCandidate(above, insDir, gapOpen, gapExtend), del)
  }

  /** The end-of-row rule scores the cell exactly as the full rule does. */
  lemma EndRowAgreesWithFullRule(p: Pref, baseScore: int, gapOpen: int, gapExtend: int,
                                 above: int, insDir: int, nextSnp: int, del: int)
    ensures var full := NeedleMaxScore(p, baseScore, gapOpen, gapExtend, above, insDir, nextSnp, del);
            NeedleMaxEndRowScore(p, baseScore, gapOpen, gapExtend, above, insDir, nextSnp, del)
              == Cell(full.score, full.dir)
  {
  }

  /** The cell takes a real move, its score is that move's candidate, and no
    * candidate scores higher. */
  lemma NeedleCellIsBestMove(p: Pref, baseScore: int, gapOpen: int, gapExtend: int,
                             above: int, insDir: int, nextSnp: int, del: int)
    ensures var r := NeedleMaxScore(p, baseScore, gapOpen, gapExtend, above, insDir, nextSnp, del);
            var snp := nextSnp + baseScore;
            var ins := IndelScore(above, insDir, gapOpen, gapExtend);
            && (r.dir == MvDel || r.dir == MvIns || r.dir == MvSnp)
            && Candidate(r.dir, snp, ins, del) == r.score
            && r.score >= snp && r.score >= ins && r.score >= del
  {
    var snp := nextSnp + baseScore;
    var ins := IndelScore(above, insDir, gapOpen, gapExtend);
    BestIsFirstMaximum(p, snp, ins, del);
  }
}
