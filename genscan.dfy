/** Scan-mode primitives of general/genScan.h: the best-move choice extended
  * with the alignment start index of the chosen move, the local cell rule that
  * carries that index, and the per-base best-score bookkeeping. */
module GenScan {
  import opened GenMath
  import opened GenAln
  import opened GenWater
  import GenNeedle

  /** Score, direction and start index picked for one cell. */
  datatype ScanCell = ScanCell(score: int, dir: int, pos: int)

  /** The start index that belongs to move `dir`. */
  function PosOf(dir: int, snpPos: int, insPos: int, delPos: int): int {
    if dir == MvDel then delPos else if dir == MvIns then insPos else snpPos
  }

  /** What every scan variant must produce under preference `p`: charMaxScore's
    * cell, with the start index of its move. */
  predicate IsScanOf(r: ScanCell, p: Pref, snp: int, ins: int, del: int, snpPos: int, insPos: int, delPos: int) {
    && Cell(r.score, r.dir) == Best(p, snp, ins, del)
    && r.pos == PosOf(r.dir, snpPos, insPos, delPos)
  }

  /** getAlnStart: the start index of the kept direction, as a sum of masked
    * terms; newIndex for a stop. */
  function GetAlnStart(dir: int, snpIndex: int, insIndex: int, delIndex: int, newIndex: int): (r: int)
    ensures dir == MvStop ==> r == newIndex
    ensures dir == MvSnp || dir == MvIns || dir == MvDel ==> r == PosOf(dir, snpIndex, insIndex, delIndex)
    ensures !IsDir(dir) ==> r == 0
  {
    (if dir == MvStop then newIndex else 0)
    + (if dir == MvSnp then snpIndex else 0)
    + (if dir == MvIns then insIndex else 0)
    + (if dir == MvDel then delIndex else 0)
  }

  function ScanInsDelSnp(snp: int, ins: int, del: int, snpPos: int, insPos: int, delPos: int): (r: ScanCell)
    ensures IsScanOf(r, InsDelSnp, snp, ins, del, snpPos, insPos, delPos)
  {
    var m0 := MacroMax(ins, del);
    var d0 := B2I(snp > m0);
    var p0 := MacroIfMax(ins, del, insPos, delPos);
    var pos := MacroIfMax(m0, snp, p0, snpPos);
    var m := MacroMax(m0, snp);
    ScanCell(m, d0 + B2I(ins == m || d0 == 1) + MvDel, pos)
  }

  function ScanDelInsSnp(snp: int, ins: int, del: int, snpPos: int, insPos: int, delPos: int): (r: ScanCell)
    ensures IsScanOf(r, DelInsSnp, snp, ins, del, snpPos, insPos, delPos)
  {
    var m0 := MacroMax(del, ins);
    var d0 := B2I(snp > m0);
    var p0 := MacroIfMax(del, ins, delPos, insPos);
    var pos := MacroIfMax(m0, snp, p0, snpPos);
    var m := MacroMax(m0, snp);
    ScanCell(m, d0 + B2I(del != m) + MvDel, pos)
  }

  function ScanInsSnpDel(snp: int, ins: int, del: int, snpPos: int, insPos: int, delPos: int): (r: ScanCell)
    ensures IsScanOf(r, InsSnpDel, snp, ins, del, snpPos, insPos, delPos)
  {
    var m0 := MacroMax(ins, snp);
    var d0 := B2I(del <= m0);
    var p0 := MacroIfMax(ins, snp, insPos, snpPos);
    var pos := MacroIfMax(m0, del, p0, delPos);
    var m := MacroMax(m0, del);
    ScanCell(m, d0 + B2I(snp > ins && d0 == 1) + MvDel, pos)
  }

  function ScanDelSnpIns(snp: int, ins: int, del: int, snpPos: int, insPos: int, delPos: int): (r: ScanCell)
    ensures IsScanOf(r, DelSnpIns, snp, ins, del, snpPos, insPos, delPos)
  {
    var m0 := MacroMax(snp, ins);
    var d0 := B2I(m0 <= del);
    var p0 := MacroIfMax(snp, ins, snpPos, insPos);
    var pos := MacroIfMax(del, m0, delPos, p0);
    var m := MacroMax(del, m0);
    ScanCell(m, MvSnp - B2I(ins > snp || d0 == 1) - d0, pos)
  }

  function ScanSnpInsDel(snp: int, ins: int, del: int, snpPos: int, insPos: int, delPos: int): (r: ScanCell)
    ensures IsScanOf(r, SnpInsDel, snp, ins, del, snpPos, insPos, delPos)
  {
    var m0 := MacroMax(snp, ins);
    var d0 := B2I(del <= m0);
    var p0 := MacroIfMax(snp, ins, snpPos, insPos);
    var pos := MacroIfMax(m0, del, p0, delPos);
    var m := MacroMax(m0, del);
    ScanCell(m, d0 + B2I(snp == m) + MvDel, pos)
  }

  /** scanSnpDelIns as written: the second position step is spelled `macoIfMax`,
    * a macro that is defined nowhere; read as macroIfMax with the arguments given
    * (maxSc, snpSc, maxPos, snpPos) it keeps the gap's position when snp ties it,
    * while the direction is snp. */
  function ScanSnpDelInsAsWritten(snp: int, ins: int, del: int, snpPos: int, insPos: int, delPos: int): (r: ScanCell)
    ensures Cell(r.score, r.dir) == Best(SnpDelIns, snp, ins, del)
  {
    var m0 := MacroMax(del, ins);
    var d0 := B2I(snp < m0);
    var p0 := MacroIfMax(del, ins, delPos, insPos);
    var pos := MacroIfMax(m0, snp, p0, snpPos);
    var m := MacroMax(snp, m0);
    ScanCell(m, MvSnp - d0 - B2I(del == m && d0 == 1), pos)
  }

  /** snp 5, ins 5, del 0: the direction is snp but the position is insPos. */
  lemma ScanSnpDelInsAsWrittenCounterexample()
    ensures var r := ScanSnpDelInsAsWritten(5, 5, 0, 10, 20, 30);
            r.dir == MvSnp && r.pos == 20 && r.pos != PosOf(r.dir, 10, 20, 30)
  {
  }

  /** scanSnpDelIns with the position step snp-first, so snp keeps ties as it
    * does for the direction. */
  function ScanSnpDelIns(snp: int, ins: int, del: int, snpPos: int, insPos: int, delPos: int): (r: ScanCell)
    ensures IsScanOf(r, SnpDelIns, snp, ins, del, snpPos, insPos, delPos)
  {
    var m0 := MacroMax(del, ins);
    var d0 := B2I(snp < m0);
    var p0 := MacroIfMax(del, ins, delPos, insPos);
    var pos := MacroIfMax(snp, m0, snpPos, p0);
    var m := MacroMax(snp, m0);
    ScanCell(m, MvSnp - d0 - B2I(del == m && d0 == 1), pos)
  }

  /** The as-written and corrected variants differ only in the position, and
    * only when snp ties the better gap. */
  lemma ScanSnpDelInsDifference(snp: int, ins: int, del: int, snpPos: int, insPos: int, delPos: int)
    ensures var a := ScanSnpDelInsAsWritten(snp, ins, del, snpPos, insPos, delPos);
            var c := ScanSnpDelIns(snp, ins, del, snpPos, insPos, delPos);
            && a.score == c.score && a.dir == c.dir
            && (snp != MacroMax(del, ins) ==> a == c)
  {
  }

  /** scanMaxScore: dispatch on the preference. */
  function ScanMaxScore(p: Pref, snp: int, ins: int, del: int, snpPos: int, insPos: int, delPos: int): (r: ScanCell)
    ensures IsScanOf(r, p, snp, ins, del, snpPos, insPos, delPos)
    ensures Cell(r.score, r.dir) == CharMaxScore(p, snp, ins, del)
  {
    match p
    case InsDelSnp => ScanInsDelSnp(snp, ins, del, snpPos, insPos, delPos)
    case DelInsSnp => ScanDelInsSnp(snp, ins, del, snpPos, insPos, delPos)
    case InsSnpDel => ScanInsSnpDel(snp, ins, del, snpPos, insPos, delPos)
    case DelSnpIns => ScanDelSnpIns(snp, ins, del, snpPos, insPos, delPos)
    case SnpInsDel => ScanSnpInsDel(snp, ins, del, snpPos, insPos, delPos)
    case SnpDelIns => ScanSnpDelIns(snp, ins, del, snpPos, insPos, delPos)
  }

  /** The variables waterScanMaxScore updates: the cell's score, direction and
    * start index, plus nextSnpScore and delScore for the next cell. */
  datatype ScanUpdate = ScanUpdate(score: int, dir: int, index: int, nextSnp: int, del: int)

  /** waterScanMaxScore: the local cell rule that also carries the start index of
    * the alignment ending in the cell. `above`/`aboveDir` are scoreOn/dirOn
    * before the call (the cell above); a dropped cell starts at curIndex. */
  function WaterScanMaxScore(p: Pref, baseScore: int, gapOpen: int, gapExtend: int,
                             above: int, aboveDir: int, nextSnp: int, del: int,
                             snpPos: int, insPos: int, delPos: int, curIndex: int): (r: ScanUpdate)
    ensures var snp := nextSnp + baseScore;
            var ins := IndelScore(above, aboveDir, gapOpen, gapExtend);
            var b := Best(p, snp, ins, del);
            && Cell(r.score, r.dir) == Floor(b)
            && r.index == (if b.score > 0 then PosOf(b.dir, snpPos, insPos, delPos) else curIndex)
            && r.nextSnp == above
            && r.del == IndelScore(r.score, r.dir, gapOpen, gapExtend)
  {
    var snp := nextSnp + baseScore;
    var ins := above + (if aboveDir != MvSnp then gapExtend - gapOpen else 0) + gapOpen;
    var s := ScanMaxScore(p, snp, ins, del, snpPos, insPos, delPos);
    var keep := s.score > 0;
    var score := if keep then s.score else 0;
    var dir := if keep then s.dir else 0;
    var index := if keep then s.pos else curIndex;
    ScanUpdate(score, dir, index, above, GenNeedle.NextDelScore(score, dir, gapOpen, gapExtend))
  }

  /** waterScanMaxEndRowScore: the same cell rule, leaving nextSnpScore and
    * delScore alone. */
  function WaterScanMaxEndRowScore(p: Pref, baseScore: int, gapOpen: int, gapExtend: int,
                                   above: int, aboveDir: int, nextSnp: int, del: int,
                                   snpPos: int, insPos: int, delPos: int, curIndex: int): (r: ScanCell)
    ensures var u := WaterScanMaxScore(p, baseScore, gapOpen, gapExtend, above, aboveDir, nextSnp, del,
                                       snpPos, insPos, delPos, curIndex);
            r == ScanCell(u.score, u.dir, u.index)
  {
    var snp := nextSnp + baseScore;
    var ins := above + (if aboveDir != MvSnp then gapExtend - gapOpen else 0) + gapOpen;
    var s := ScanMaxScore(p, snp, ins, del, snpPos, insPos, delPos);
    var keep := s.score > 0;
    ScanCell(if keep then s.score else 0, if keep then s.dir else 0, if keep then s.pos else curIndex)
  }

  /** Scan mode scores every cell exactly as waterMaxScore does; it only adds the
    * start index. */
  lemma WaterScanAgreesWithWater(p: Pref, baseScore: int, gapOpen: int, gapExtend: int,
                                 above: int, aboveDir: int, nextSnp: int, del: int,
                                 snpPos: int, insPos: int, delPos: int, curIndex: int)
    ensures var s := WaterScanMaxScore(p, baseScore, gapOpen, gapExtend, above, aboveDir, nextSnp, del,
                                       snpPos, insPos, delPos, curIndex);
            var w := WaterMaxScore(p, baseScore, gapOpen, gapExtend, above, aboveDir, nextSnp, del);
            s.score == w.score && s.dir == w.dir && s.nextSnp == w.nextSnp && s.del == w.del
  {
  }

  /** A best-score record for one base: score, start index and end index. */
  datatype Kept = Kept(score: int, start: int, end: int)

  /** scanIfKeepScoreRef: a match/snp cell that beats the reference base's record
    * replaces it; otherwise it may replace the query base's record. Each record is
    * replaced whole or not at all. */
  function ScanIfKeepScoreRef(score: int, dir: int, start: int, end: int, ref: Kept, qry: Kept): (r: (Kept, Kept))
    ensures dir != MvSnp ==> r == (ref, qry)
    ensures dir == MvSnp && ref.score < score ==> r == (Kept(score, start, end), qry)
    ensures dir == MvSnp && ref.score >= score && qry.score < score ==> r == (ref, Kept(score, start, end))
    ensures dir == MvSnp && ref.score >= score && qry.score >= score ==> r == (ref, qry)
  {
    var isSnp := dir == MvSnp;
    var refBl := isSnp && ref.score < score;
    var qryBl := !refBl && isSnp && qry.score < score;
    var newRef := if refBl then Kept(score, start, end) else ref;
    var newQry := if qryBl then Kept(score, start, end) else qry;
    (newRef, newQry)
  }

  /** scanIfKeepScoreQry: the mirror image, the query record first. */
  function ScanIfKeepScoreQry(score: int, dir: int, start: int, end: int, ref: Kept, qry: Kept): (r: (Kept, Kept))
    ensures dir != MvSnp ==> r == (ref, qry)
    ensures dir == MvSnp && qry.score < score ==> r == (ref, Kept(score, start, end))
    ensures dir == MvSnp && qry.score >= score && ref.score < score ==> r == (Kept(score, start, end), qry)
    ensures dir == MvSnp && qry.score >= score && ref.score >= score ==> r == (ref, qry)
  {
    var isSnp := dir == MvSnp;
    var qryBl := isSnp && qry.score < score;
    var refBl := !qryBl && isSnp && ref.score < score;
    var newQry := if qryBl then Kept(score, start, end) else qry;
    var newRef := if refBl then Kept(score, start, end) else ref;
    (newRef, newQry)
  }

  /** At most one record changes, records never lose score, and a changed record
    * holds exactly the offered triple. */
  lemma KeepScoreInvariants(score: int, dir: int, start: int, end: int, ref: Kept, qry: Kept)
    ensures var (r1, q1) := ScanIfKeepScoreRef(score, dir, start, end, ref, qry);
            && (r1 == ref || q1 == qry)
            && r1.score >= ref.score && q1.score >= qry.score
            && (r1 != ref ==> r1 == Kept(score, start, end))
            && (q1 != qry ==> q1 == Kept(score, start, end))
    ensures var (r2, q2) := ScanIfKeepScoreQry(score, dir, start, end, ref, qry);
            && (r2 == ref || q2 == qry)
            && r2.score >= ref.score && q2.score >= qry.score
            && (r2 != ref ==> r2 == Kept(score, start, end))
            && (q2 != qry ==> q2 == Kept(score, start, end))
  {
  }
}
