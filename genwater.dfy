/** The local (Smith-Waterman) cell rule of waterman/genWater.h: the global rule
  * followed by a zero floor, where a non-positive cell becomes score 0 with
  * direction defMvStop. */
module GenWater {
  import opened GenAln
  import opened GenNeedle

  /** The zero floor: `keep = -(score > 0)`, then `dir &= keep` and `score &= keep`. */
  function Floor(c: Cell): (r: Cell)
    ensures r.score >= 0
    ensures c.score > 0 ==> r == c
    ensures c.score <= 0 ==> r == Cell(0, MvStop)
  {
    var keep := c.score > 0;
    Cell(if keep then c.score else 0, if keep then c.dir else 0)
  }

  /** waterMaxScore: scores a cell with the floor applied, and prepares
    * nextSnpScore and delScore for the next cell of the row. */
  function WaterMaxScore(p: Pref, baseScore: int, gapOpen: int, gapExtend: int,
                         above: int, insDir: int, nextSnp: int, del: int): (r: CellUpdate)
    ensures var b := Best(p, nextSnp + baseScore, IndelScore(above, insDir, gapOpen, gapExtend), del);
            && r.score == (if b.score > 0 then b.score else 0)
            && r.dir == (if b.score > 0 then b.dir else MvStop)
            && r.nextSnp == above
            && r.del == IndelScore(r.score, r.dir, gapOpen, gapExtend)
  {
    var snp := SnpCandidate(nextSnp, baseScore);
    var ins := InsCandidate(above, insDir, gapOpen, gapExtend);
    var c := Floor(CharMaxScore(p, snp, ins, del));
    CellUpdate(c.score, c.dir, above, NextDelScore(c.score, c.dir, gapOpen, gapExtend))
  }

  /** waterMaxEndRowScore: the last cell of a row, with the floor; nextSnpScore
    * and delScore are not touched. */
  function WaterMaxEndRowScore(p: Pref, baseScore: int, gapOpen: int, gapExtend: int,
                               above: int, insDir: int, nextSnp: int, del: int): (r: Cell)
    ensures r.score >= 0
    ensures r == Floor(Best(p, nextSnp + baseScore, IndelScore(above, insDir, gapOpen, gapExtend), del))
  {
    Floor(CharMaxScore(p, SnpCandidate(nextSnp, baseScore), InsCandidate(above, insDir, gapOpen, gapExtend), del))
  }

  /** The local rule is the global rule with the floor applied to the cell; the
    * diagonal score passed on is the same, and the deletion score follows the
    * floored cell. */
  lemma WaterIsFlooredNeedle(p: Pref, baseScore: int, gapOpen: int, gapExtend: int,
                             above: int, insDir: int, nextSnp: int, del: int)
    ensures var n := NeedleMaxScore(p, baseScore, gapOpen, gapExtend, above, insDir, nextSnp, del);
            var w := WaterMaxScore(p, baseScore, gapOpen, gapExtend, above, insDir, nextSnp, del);
            && Cell(w.score, w.dir) == Floor(Cell(n.score, n.dir))
            && w.nextSnp == n.nextSnp
            && (n.score > 0 ==> w == n)
  {
  }

  /** A kept cell (score above 0) names a real move; a dropped cell is a stop
    * with score 0. The score is never negative. */
  lemma WaterCellIsStopOrMove(p: Pref, baseScore: int, gapOpen: int, gapExtend: int,
                              above: int, insDir: int, nextSnp: int, del: int)
    ensures var w := WaterMaxScore(p, baseScore, gapOpen, gapExtend, above, insDir, nextSnp, del);
            && w.score >= 0
            && (w.score > 0 <==> w.dir != MvStop)
            && (w.dir == MvStop ==> w.score == 0)
  {
    var ins := IndelScore(above, insDir, gapOpen, gapExtend);
    BestIsFirstMaximum(p, nextSnp + baseScore, ins, del);
  }

  /** The floored best move is the maximum clamped at 0; it is a stop exactly
    * when that is 0, and otherwise a real move that gives the score. */
  lemma FlooredBest(p: Pref, snp: int, ins: int, del: int)
    ensures var c := Floor(Best(p, snp, ins, del));
            && c.score == (if Max3(snp, ins, del) > 0 then Max3(snp, ins, del) else 0)
            && (c.dir == MvStop <==> c.score == 0)
            && IsDir(c.dir)
            && (c.score > 0 ==>
                  && (c.dir == MvDel || c.dir == MvIns || c.dir == MvSnp)
                  && c.score == Candidate(c.dir, snp, ins, del))
  {
    BestIsFirstMaximum(p, snp, ins, del);
  }
}
