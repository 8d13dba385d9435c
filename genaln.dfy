/** Scoring primitives shared by every aligner (general/genAln.h): the gap
  * open/extend rule and the choice of the best of the three moves under one of
  * six tie-break preferences. */
module GenAln {
  import opened GenMath

  /** Direction codes written to direction matrices (defMvStop, defMvDel,
    * defMvIns, defMvSnp). They fit in two bits. */
  const MvStop: int := 0
  const MvDel: int := 1
  const MvIns: int := 2
  const MvSnp: int := 3

  predicate IsDir(d: int) { 0 <= d <= 3 }

  /** The order in which equal-scoring moves are preferred (the bestDirC setting). */
  datatype Pref = InsDelSnp | DelInsSnp | InsSnpDel | DelSnpIns | SnpInsDel | SnpDelIns

  /** Score and direction picked for one cell. */
  datatype Cell = Cell(score: int, dir: int)

  /** indelScore: a gap that follows a match/snp pays gapOpen, a gap that follows
    * another gap pays gapExtend. */
  function IndelScore(oldScore: int, lastDir: int, gapOpen: int, gapExtend: int): int {
    oldScore + (if lastDir == MvSnp then gapOpen else gapExtend)
  }

  // ---------------------------------------------------------------------------
  // Reference definition of the best move
  // ---------------------------------------------------------------------------

  /** The largest of the three move scores. */
  function Max3(snp: int, ins: int, del: int): (m: int)
    ensures m >= snp && m >= ins && m >= del
    ensures m == snp || m == ins || m == del
  {
    if snp >= ins && snp >= del then snp else if ins >= del then ins else del
  }

  /** Score of the move that `dir` stands for. */
  function Candidate(dir: int, snp: int, ins: int, del: int): int {
    if dir == MvDel then del else if dir == MvIns then ins else snp
  }

  /** Moves from most to least preferred when scores tie. */
  function Order(p: Pref): seq<int> {
    match p
    case InsDelSnp => [MvIns, MvDel, MvSnp]
    case DelInsSnp => [MvDel, MvIns, MvSnp]
    case InsSnpDel => [MvIns, MvSnp, MvDel]
    case DelSnpIns => [MvDel, MvSnp, MvIns]
    case SnpInsDel => [MvSnp, MvIns, MvDel]
    case SnpDelIns => [MvSnp, MvDel, MvIns]
  }

  /** The first move of a three-move `order` whose score reaches `m` (the last
    * one when no earlier move does). */
  function FirstReaching(order: seq<int>, snp: int, ins: int, del: int, m: int): int
    requires |order| == 3
  {
    if Candidate(order[0], snp, ins, del) == m then order[0]
    else if Candidate(order[1], snp, ins, del) == m then order[1]
    else order[2]
  }

  /** The cell every variant must produce: the maximum, and the most preferred
    * move reaching it. */
  function Best(p: Pref, snp: int, ins: int, del: int): Cell {
    var m := Max3(snp, ins, del);
    Cell(m, FirstReaching(Order(p), snp, ins, del, m))
  }

  /** What Best means: its direction is a real move scoring the maximum, and every
    * move preferred over it scores strictly less. */
  lemma {:induction false} BestIsFirstMaximum(p: Pref, snp: int, ins: int, del: int)
    ensures var r := Best(p, snp, ins, del);
      && r.dir in Order(p)
      && r.dir != MvStop
      && Candidate(r.dir, snp, ins, del) == r.score
      && r.score >= snp && r.score >= ins && r.score >= del
      && forall k :: 0 <= k < |Order(p)| && Order(p)[k] == r.dir ==>
           forall j :: 0 <= j < k ==> Candidate(Order(p)[j], snp, ins, del) < r.score
  {
    var o := Order(p);
    assert |o| == 3 && o[0] != o[1] && o[0] != o[2] && o[1] != o[2];
    assert {o[0], o[1], o[2]} == {MvDel, MvIns, MvSnp};
  }

  // ---------------------------------------------------------------------------
  // Branchless variants (the default build)
  // ---------------------------------------------------------------------------

  function InsDelSnpMax(snp: int, ins: int, del: int): (r: Cell)
    ensures r == Best(InsDelSnp, snp, ins, del)
  {
    var m0 := MacroMax(ins, del);
    var d0 := B2I(snp > m0);
    var m := MacroMax(m0, snp);
    Cell(m, d0 + B2I(ins == m || d0 == 1) + MvDel)
  }

  function DelInsSnpMax(snp: int, ins: int, del: int): (r: Cell)
    ensures r == Best(DelInsSnp, snp, ins, del)
  {
    var m0 := MacroMax(del, ins);
    var d0 := B2I(snp > m0);
    var m := MacroMax(m0, snp);
    Cell(m, d0 + B2I(del != m) + MvDel)
  }

  function InsSnpDelMax(snp: int, ins: int, del: int): (r: Cell)
    ensures r == Best(InsSnpDel, snp, ins, del)
  {
    var m0 := MacroMax(ins, snp);
    var d0 := B2I(del <= m0);
    var m := MacroMax(m0, del);
    Cell(m, d0 + B2I(snp > ins && d0 == 1) + MvDel)
  }

  function DelSnpInsMax(snp: int, ins: int, del: int): (r: Cell)
    ensures r == Best(DelSnpIns, snp, ins, del)
  {
    var m0 := MacroMax(snp, ins);
    var d0 := B2I(m0 <= del);
    var m := MacroMax(del, m0);
    Cell(m, MvSnp - B2I(ins > snp || d0 == 1) - d0)
  }

  function SnpInsDelMax(snp: int, ins: int, del: int): (r: Cell)
    ensures r == Best(SnpInsDel, snp, ins, del)
  {
    var m0 := MacroMax(snp, ins);
    var d0 := B2I(del <= m0);
    var m := MacroMax(m0, del);
    Cell(m, d0 + B2I(snp == m) + MvDel)
  }

  function SnpDelInsMax(snp: int, ins: int, del: int): (r: Cell)
    ensures r == Best(SnpDelIns, snp, ins, del)
  {
    var m0 := MacroMax(del, ins);
    var d0 := B2I(snp < m0);
    var m := MacroMax(snp, m0);
    Cell(m, MvSnp - d0 - B2I(del == m && d0 == 1))
  }

  // ---------------------------------------------------------------------------
  // Branched variants (the BRANCHED build)
  // ---------------------------------------------------------------------------

  function InsDelSnpBranched(snp: int, ins: int, del: int): (r: Cell)
    ensures r == Best(InsDelSnp, snp, ins, del)
  {
    var c := if del > ins then Cell(del, MvDel) else Cell(ins, MvIns);
    if snp > c.score then Cell(snp, MvSnp) else c
  }

  function DelInsSnpBranched(snp: int, ins: int, del: int): (r: Cell)
    ensures r == Best(DelInsSnp, snp, ins, del)
  {
    var c := if ins > del then Cell(ins, MvIns) else Cell(del, MvDel);
    if snp > c.score then Cell(snp, MvSnp) else c
  }

  function InsSnpDelBranched(snp: int, ins: int, del: int): (r: Cell)
    ensures r == Best(InsSnpDel, snp, ins, del)
  {
    var c := if snp > ins then Cell(snp, MvSnp) else Cell(ins, MvIns);
    if del > c.score then Cell(del, MvDel) else c
  }

  function DelSnpInsBranched(snp: int, ins: int, del: int): (r: Cell)
    ensures r == Best(DelSnpIns, snp, ins, del)
  {
    var c := if snp > del then Cell(snp, MvSnp) else Cell(del, MvDel);
    if ins > c.score then Cell(ins, MvIns) else c
  }

  function SnpInsDelBranched(snp: int, ins: int, del: int): (r: Cell)
    ensures r == Best(SnpInsDel, snp, ins, del)
  {
    var c := if ins > snp then Cell(ins, MvIns) else Cell(snp, MvSnp);
    if del > c.score then Cell(del, MvDel) else c
  }

  function SnpDelInsBranched(snp: int, ins: int, del: int): (r: Cell)
    ensures r == Best(SnpDelIns, snp, ins, del)
  {
    var c := if del > snp then Cell(del, MvDel) else Cell(snp, MvSnp);
    if ins > c.score then Cell(ins, MvIns) else c
  }

  // ---------------------------------------------------------------------------
  // Dispatch on the preference
  // ---------------------------------------------------------------------------

  /** charMaxScore: score and direction of a cell under preference `p`. */
  function CharMaxScore(p: Pref, snp: int, ins: int, del: int): (r: Cell)
    ensures r == Best(p, snp, ins, del)
  {
    match p
    case InsDelSnp => InsDelSnpMax(snp, ins, del)
    case DelInsSnp => DelInsSnpMax(snp, ins, del)
    case InsSnpDel => InsSnpDelMax(snp, ins, del)
    case DelSnpIns => DelSnpInsMax(snp, ins, del)
    case SnpInsDel => SnpInsDelMax(snp, ins, del)
    case SnpDelIns => SnpDelInsMax(snp, ins, del)
  }

  /** The branched build picks the same cell as the branchless one. */
  function CharMaxScoreBranched(p: Pref, snp: int, ins: int, del: int): (r: Cell)
    ensures r == CharMaxScore(p, snp, ins, del)
  {
    match p
    case InsDelSnp => InsDelSnpBranched(snp, ins, del)
    case DelInsSnp => DelInsSnpBranched(snp, ins, del)
    case InsSnpDel => InsSnpDelBranched(snp, ins, del)
    case DelSnpIns => DelSnpInsBranched(snp, ins, del)
    case SnpInsDel => SnpInsDelBranched(snp, ins, del)
    case SnpDelIns => SnpDelInsBranched(snp, ins, del)
  }

  /** alnMaxScore: the score alone, as two macroMax calls in preference order. */
  function AlnMaxScore(p: Pref, snp: int, ins: int, del: int): (m: int)
    ensures m == Max3(snp, ins, del)
    ensures m == CharMaxScore(p, snp, ins, del).score
  {
    match p
    case SnpInsDel => MacroMax(MacroMax(snp, ins), del)
    case SnpDelIns => MacroMax(MacroMax(snp, del), ins)
    case InsSnpDel => MacroMax(MacroMax(ins, snp), del)
    case InsDelSnp => MacroMax(MacroMax(ins, del), snp)
    case DelSnpIns => MacroMax(MacroMax(del, snp), ins)
    case DelInsSnp => MacroMax(MacroMax(del, ins), snp)
  }

  /** The chosen direction is never defMvStop and names a move scoring the maximum. */
  lemma CharMaxScoreIsMove(p: Pref, snp: int, ins: int, del: int)
    ensures var r := CharMaxScore(p, snp, ins, del);
      && (r.dir == MvDel || r.dir == MvIns || r.dir == MvSnp)
      && Candidate(r.dir, snp, ins, del) == r.score
  {
    BestIsFirstMaximum(p, snp, ins, del);
  }

  /** insDelSnp: snp is taken only when it beats both gaps, and ins beats del on ties. */
  lemma InsDelSnpTies(snp: int, ins: int, del: int)
    ensures CharMaxScore(InsDelSnp, snp, ins, del).dir == MvSnp <==> snp > ins && snp > del
    ensures CharMaxScore(InsDelSnp, snp, ins, del).dir == MvIns <==> ins >= del && ins >= snp
    ensures CharMaxScore(InsDelSnp, snp, ins, del).dir == MvDel <==> del > ins && del >= snp
  {
  }

  /** snpInsDel: snp wins every tie, and del is taken only when strictly best. */
  lemma SnpInsDelTies(snp: int, ins: int, del: int)
    ensures CharMaxScore(SnpInsDel, snp, ins, del).dir == MvSnp <==> snp >= ins && snp >= del
    ensures CharMaxScore(SnpInsDel, snp, ins, del).dir == MvDel <==> del > snp && del > ins
  {
  }
}
