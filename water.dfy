/** The local alignment fill of waterman/waterTwoBit.h: one row of scores and a
  * 2-bit direction matrix of (lenRef + 1) * (lenQry + 1) + 1 elements, written
  * through one cursor and read back through a second cursor that trails it by
  * one row (the cell above). Every cell follows the local rule of genWater.h,
  * and the best cell outside the gap row and gap column is kept as it is met.
  *
  * The specification is the recurrence of AlnRecurrence in local mode, and the
  * best cell is the first maximum of the row-major scan (MatrixPeak). */
module WaterTwoBit {
  import opened DataTypeShortHand
  import opened GenAln
  import opened GenWater
  import opened AlnSetStruct
  import opened AlnMatrixStruct
  import opened AlnRecurrence
  import opened TwoBitArrays
  import opened AlnStructs

  /** Column 0 of every row below the gap row is a stop whose score is at
    * least 0. */
  lemma LocalColZero(g: Params, qry: seq<uchar>, ref: seq<uchar>, mx: seq<seq<Cell>>, i: nat)
    requires IsTable(g.table) && IsIndexSeq(qry) && IsIndexSeq(ref)
    requires MatrixFollows(g, Local, qry, ref, mx) && 1 <= i <= |qry|
    ensures mx[i][0] == ColZero(g, Local, i) && mx[i][0].dir == MvStop && mx[i][0].score >= 0
  {
    assert StepFollows(g, Local, qry, ref, mx, i);
  }

  /** A cell outside the gap row and gap column: its score is the best of the
    * three moves floored at 0; it is a stop exactly when it scores 0, and
    * otherwise names a move that gives its score. */
  lemma LocalInnerCell(g: Params, qry: seq<uchar>, ref: seq<uchar>, mx: seq<seq<Cell>>, i: nat, j: nat)
    requires IsTable(g.table) && IsIndexSeq(qry) && IsIndexSeq(ref)
    requires MatrixFollows(g, Local, qry, ref, mx)
    requires 1 <= i <= |qry| && 1 <= j <= |ref|
    ensures var snp := mx[i - 1][j - 1].score + g.table[qry[i - 1]][ref[j - 1]];
            var ins := IndelScore(mx[i - 1][j].score, mx[i - 1][j].dir, g.gapOpen, g.gapExtend);
            var del := if j == 1 then DelZero(g, Local, i)
                       else IndelScore(mx[i][j - 1].score, mx[i][j - 1].dir, g.gapOpen, g.gapExtend);
            && mx[i][j].score == Clamp(Max3(snp, ins, del))
            && IsDir(mx[i][j].dir)
            && (mx[i][j].dir == MvStop <==> mx[i][j].score == 0)
            && (mx[i][j].score > 0 ==>
                  && (mx[i][j].dir == MvDel || mx[i][j].dir == MvIns || mx[i][j].dir == MvSnp)
                  && mx[i][j].score == Candidate(mx[i][j].dir, snp, ins, del))
  {
    var snp := mx[i - 1][j - 1].score + g.table[qry[i - 1]][ref[j - 1]];
    var ins := IndelScore(mx[i - 1][j].score, mx[i - 1][j].dir, g.gapOpen, g.gapExtend);
    var del := if j == 1 then DelZero(g, Local, i)
               else IndelScore(mx[i][j - 1].score, mx[i][j - 1].dir, g.gapOpen, g.gapExtend);
    assert StepFollows(g, Local, qry, ref, mx, i);
    assert mx[i][j] == NextCell(g, Local, qry[i - 1], ref, mx[i - 1], mx[i], DelZero(g, Local, i), j);
    FlooredBest(g.pref, snp, ins, del);
  }

  /** Every cell of the local matrix scores at least 0 and holds a direction
    * code; the gap row and the gap column are stops, and the gap row scores 0. */
  lemma LocalCellBounds(g: Params, qry: seq<uchar>, ref: seq<uchar>, mx: seq<seq<Cell>>, i: nat, j: nat)
    requires IsTable(g.table) && IsIndexSeq(qry) && IsIndexSeq(ref)
    requires MatrixFollows(g, Local, qry, ref, mx)
    requires i <= |qry| && j <= |ref|
    ensures mx[i][j].score >= 0 && IsDir(mx[i][j].dir)
    ensures i == 0 || j == 0 ==> mx[i][j].dir == MvStop
    ensures i == 0 ==> mx[i][j].score == 0
  {
    if i > 0 {
      if j == 0 {
        LocalColZero(g, qry, ref, mx, i);
      } else {
        LocalInnerCell(g, qry, ref, mx, i, j);
      }
    }
  }

  /** One waterMaxScore (or waterMaxEndRowScore) call on the values the fill
    * holds for column j computes cell j of the local row. */
  lemma LocalStep(g: Params, qb: uchar, ref: seq<uchar>, above: seq<Cell>, row: seq<Cell>, del0: int, j: nat,
                  baseScore: int, aboveScore: int, aboveDir: int, nextSnp: int, del: int)
    requires IsTable(g.table) && qb as int < MatrixCol && IsIndexSeq(ref)
    requires |above| == |ref| + 1 && 1 <= j <= |ref| && j <= |row|
    requires baseScore == g.table[qb][ref[j - 1]]
    requires aboveScore == above[j].score && aboveDir == above[j].dir && nextSnp == above[j - 1].score
    requires del == if j == 1 then del0 else IndelScore(row[j - 1].score, row[j - 1].dir, g.gapOpen, g.gapExtend)
    ensures var u := WaterMaxScore(g.pref, baseScore, g.gapOpen, g.gapExtend, aboveScore, aboveDir, nextSnp, del);
            && Cell(u.score, u.dir) == NextCell(g, Local, qb, ref, above, row, del0, j)
            && 0 <= u.dir <= 3 && u.nextSnp == aboveScore
            && u.del == IndelScore(u.score, u.dir, g.gapOpen, g.gapExtend)
    ensures WaterMaxEndRowScore(g.pref, baseScore, g.gapOpen, g.gapExtend, aboveScore, aboveDir, nextSnp, del)
            == NextCell(g, Local, qb, ref, above, row, del0, j)
  {
    FlooredBest(g.pref, nextSnp + baseScore, IndelScore(aboveScore, aboveDir, g.gapOpen, g.gapExtend), del);
  }

  /** The fill's objects: the writing cursor `dirMatrix` on element `d` and
    * the reading cursor `insDir` on element `u` of one buffer `limbs` whose
    * elements are `elms`, and scoreAry holding `scores`. */
  ghost predicate Links(scoreAry: array<int>, dirMatrix: TwoBitAry, insDir: TwoBitAry, limbs: array<bv8>,
                        d: int, u: int, elms: seq<int>, scores: seq<int>)
    reads scoreAry, dirMatrix, insDir, limbs
  {
    && dirMatrix != insDir && dirMatrix.firstLimb == limbs && insDir.firstLimb == limbs
    && scoreAry as object != limbs
    && dirMatrix.Valid() && insDir.Valid()
    && dirMatrix.Index() == d && insDir.Index() == u
    && ElmsOf(limbs[..]) == elms && scoreAry[..] == scores
  }

  /** The values the inner loop of one query row holds before column j: the
    * scores are this row's in columns 0 .. j - 1 and the row above's after
    * that, the direction elements from `base` on hold this row's columns
    * 0 .. j - 1 and nothing before `base` has changed since `elms0`, in which
    * the row above ends at `base`; nextSnp and del are the values
    * waterMaxScore takes for column j, and `best` is the best cell of columns
    * 1 .. j - 1 met after `best0`. */
  ghost predicate InnerValues(g: Params, qb: uchar, ref: seq<uchar>, above: seq<Cell>, row: seq<Cell>,
                              colScore: int, del0: int, base: nat, best0: Peak, elms0: seq<int>,
                              j: nat, scores: seq<int>, elms: seq<int>, nextSnp: int, del: int, best: Peak)
  {
    && IsTable(g.table) && qb as int < MatrixCol && IsIndexSeq(ref)
    && |above| == |ref| + 1 && |scores| == |ref| + 1
    && RowFollows(g, Local, qb, ref, above, Cell(colScore, MvStop), del0, row)
    && 1 <= j <= |ref|
    && |ref| + 1 <= base && base + |ref| < |elms0| && |elms| == |elms0|
    && (forall k :: 0 <= k <= |ref| ==> elms0[base - |ref| - 1 + k] == above[k].dir)
    && elms[..base] == elms0[..base]
    && (forall k :: 0 <= k < j ==> elms[base + k] == row[k].dir)
    && (forall k :: 0 <= k < j ==> scores[k] == row[k].score)
    && (forall k :: j <= k <= |ref| ==> scores[k] == above[k].score)
    && nextSnp == above[j - 1].score
    && del == (if j == 1 then del0 else IndelScore(row[j - 1].score, row[j - 1].dir, g.gapOpen, g.gapExtend))
    && best == RowPeak(row, base, j - 1, best0)
  }

  /** Column j done: writing cell j of the row into the scores and the
    * direction elements moves the loop's values on to column j + 1. */
  lemma InnerValuesStep(g: Params, qb: uchar, ref: seq<uchar>, above: seq<Cell>, row: seq<Cell>,
                        colScore: int, del0: int, base: nat, best0: Peak, elms0: seq<int>,
                        j: nat, scores: seq<int>, elms: seq<int>, nextSnp: int, del: int, best: Peak)
    requires j < |ref|
    requires InnerValues(g, qb, ref, above, row, colScore, del0, base, best0, elms0,
                         j, scores, elms, nextSnp, del, best)
    ensures InnerValues(g, qb, ref, above, row, colScore, del0, base, best0, elms0,
                        j + 1, scores[j := row[j].score], elms[base + j := row[j].dir],
                        above[j].score, IndelScore(row[j].score, row[j].dir, g.gapOpen, g.gapExtend),
                        if best.score < row[j].score then Peak(row[j].score, base + j) else best)
  {
    assert elms[base + j := row[j].dir][..base] == elms[..base];
  }

  /** What scoring column j of a query row needs: the cell rule gives cell j
    * from the row above and cell j - 1, the element under the reading cursor
    * and the score at j are the row above's, and nextSnp and del are the
    * diagonal score and the deletion score for column j. */
  ghost predicate CellReady(g: Params, qb: uchar, ref: seq<uchar>, above: seq<Cell>, row: seq<Cell>,
                            del0: int, base: nat, j: nat, elms: seq<int>, scores: seq<int>, nextSnp: int, del: int)
  {
    && IsTable(g.table) && qb as int < MatrixCol && IsIndexSeq(ref)
    && |above| == |ref| + 1 && |row| == |ref| + 1 && |scores| == |ref| + 1
    && 1 <= j <= |ref| && |ref| + 1 <= base && base + j < |elms|
    && row[j] == NextCell(g, Local, qb, ref, above, row, del0, j)
    && elms[base - |ref| - 1 + j] == above[j].dir && scores[j] == above[j].score
    && nextSnp == above[j - 1].score
    && del == (if j == 1 then del0 else IndelScore(row[j - 1].score, row[j - 1].dir, g.gapOpen, g.gapExtend))
  }

  /** The inner loop's values before column j have what scoring it needs. */
  lemma InnerReady(g: Params, qb: uchar, ref: seq<uchar>, above: seq<Cell>, row: seq<Cell>,
                   colScore: int, del0: int, base: nat, best0: Peak, elms0: seq<int>,
                   j: nat, scores: seq<int>, elms: seq<int>, nextSnp: int, del: int, best: Peak)
    requires InnerValues(g, qb, ref, above, row, colScore, del0, base, best0, elms0,
                         j, scores, elms, nextSnp, del, best)
    ensures CellReady(g, qb, ref, above, row, del0, base, j, elms, scores, nextSnp, del)
  {
    assert elms[..base][base - |ref| - 1 + j] == elms0[..base][base - |ref| - 1 + j];
  }

  /** Stores a cell: its score in scoreAry[j] and its direction under the
    * writing cursor; then both cursors move on one element. */
  method StoreCell(scoreAry: array<int>, dirMatrix: TwoBitAry, insDir: TwoBitAry, limbs: array<bv8>,
                   j: nat, score: int, dir: int, d: int, u: int, ghost elms: seq<int>, ghost scores: seq<int>)
    requires Links(scoreAry, dirMatrix, insDir, limbs, d, u, elms, scores)
    requires j < |scores| && 0 <= d < |elms| && 0 <= dir < 4
    modifies scoreAry, limbs, dirMatrix, insDir
    ensures Links(scoreAry, dirMatrix, insDir, limbs, d + 1, u + 1, elms[d := dir], scores[j := score])
  {
    scoreAry[j] := score;
    dirMatrix.ChangeTwoBitElm(ElmNum(dir));
    dirMatrix.TwoBitMvToNextElm();
    insDir.TwoBitMvToNextElm();
  }

  /** One pass of the inner loop (column j < lenRef): read the direction above
    * through `insDir`, score the cell with waterMaxScore, store its score and
    * direction, move both cursors on and keep the cell if it beats the best. */
  method WaterCell(alnSet: AlnSet, ghost g: Params, qb: uchar, ref: seq<uchar>,
                   scoreAry: array<int>, dirMatrix: TwoBitAry, insDir: TwoBitAry, limbs: array<bv8>,
                   ghost above: seq<Cell>, ghost row: seq<Cell>, del0: int, base: nat,
                   j: nat, ghost elms: seq<int>, ghost scores: seq<int>, nextSnp: int, del: int, best: Peak)
      returns (nextSnp': int, del': int, best': Peak)
    requires ParamsMatch(g, alnSet) && 1 <= j < |ref|
    requires CellReady(g, qb, ref, above, row, del0, base, j, elms, scores, nextSnp, del)
    requires Links(scoreAry, dirMatrix, insDir, limbs, base + j, base - |ref| - 1 + j, elms, scores)
    modifies scoreAry, limbs, dirMatrix, insDir
    ensures Links(scoreAry, dirMatrix, insDir, limbs, base + j + 1, base - |ref| + j,
                  elms[base + j := row[j].dir], scores[j := row[j].score])
    ensures nextSnp' == above[j].score
    ensures del' == IndelScore(row[j].score, row[j].dir, g.gapOpen, g.gapExtend)
    ensures best' == if best.score < row[j].score then Peak(row[j].score, base + j) else best
  {
    var insD := insDir.GetTwoBitElm();
    var baseScore := alnSet.GetBaseScore(qb, ref[j - 1]);
    LocalStep(g, qb, ref, above, row, del0, j, baseScore, scoreAry[j], insD, nextSnp, del);
    var u := WaterMaxScore(alnSet.settings.bestDir, baseScore, alnSet.settings.gapOpen, alnSet.settings.gapExtend,
                           scoreAry[j], insD, nextSnp, del);
    assert u.score == row[j].score && u.dir == row[j].dir;
    StoreCell(scoreAry, dirMatrix, insDir, limbs, j, u.score, u.dir, base + j, base - |ref| - 1 + j, elms, scores);
    best' := best;
    if best.score < u.score {
      best' := Peak(u.score, base + j);
    }
    nextSnp' := u.nextSnp;
    del' := u.del;
  }

  /** Column j of the inner loop moves the loop's values on to column j + 1. */
  method WaterInnerStep(alnSet: AlnSet, ghost g: Params, qb: uchar, ref: seq<uchar>,
                        scoreAry: array<int>, dirMatrix: TwoBitAry, insDir: TwoBitAry, limbs: array<bv8>,
                        ghost above: seq<Cell>, ghost row: seq<Cell>, ghost colScore: int, del0: int, base: nat,
                        ghost best0: Peak, ghost elms0: seq<int>,
                        j: nat, ghost elms: seq<int>, ghost scores: seq<int>, nextSnp: int, del: int, best: Peak)
      returns (nextSnp': int, del': int, best': Peak, ghost elms': seq<int>, ghost scores': seq<int>)
    requires ParamsMatch(g, alnSet) && 1 <= j < |ref|
    requires InnerValues(g, qb, ref, above, row, colScore, del0, base, best0, elms0,
                         j, scores, elms, nextSnp, del, best)
    requires Links(scoreAry, dirMatrix, insDir, limbs, base + j, base - |ref| - 1 + j, elms, scores)
    modifies scoreAry, limbs, dirMatrix, insDir
    ensures InnerValues(g, qb, ref, above, row, colScore, del0, base, best0, elms0,
                        j + 1, scores', elms', nextSnp', del', best')
    ensures Links(scoreAry, dirMatrix, insDir, limbs, base + (j + 1), base - |ref| - 1 + (j + 1), elms', scores')
  {
    InnerValuesStep(g, qb, ref, above, row, colScore, del0, base, best0, elms0,
                    j, scores, elms, nextSnp, del, best);
    InnerReady(g, qb, ref, above, row, colScore, del0, base, best0, elms0, j, scores, elms, nextSnp, del, best);
    nextSnp', del', best' := WaterCell(alnSet, g, qb, ref, scoreAry, dirMatrix, insDir, limbs,
                                       above, row, del0, base, j, elms, scores, nextSnp, del, best);
    elms' := elms[base + j := row[j].dir];
    scores' := scores[j := row[j].score];
    assert base - |ref| + j == base - |ref| - 1 + (j + 1);
  }

  /** The inner loop of one query row: columns 1 .. lenRef - 1 by
    * waterMaxScore, reading the direction above through `insDir` and writing
    * through `dirMatrix`, and keeping the best cell. Column 0 of the row is at
    * element `base`; on entry scoreAry holds the row above with column 0
    * already replaced by this row's (`colScore`), nextSnp the old column-0
    * score and del the deletion score for column 1. */
  method WaterRowInner(alnSet: AlnSet, ghost g: Params, qb: uchar, ref: seq<uchar>,
                       scoreAry: array<int>, dirMatrix: TwoBitAry, insDir: TwoBitAry, limbs: array<bv8>,
                       ghost above: seq<Cell>, ghost row: seq<Cell>, ghost colScore: int, del0: int, base: nat,
                       best0: Peak, ghost elms0: seq<int>, ghost scores0: seq<int>, nextSnp0: int)
      returns (nextSnp: int, del: int, best: Peak, ghost elms: seq<int>, ghost scores: seq<int>)
    requires ParamsMatch(g, alnSet) && |ref| >= 1
    requires InnerValues(g, qb, ref, above, row, colScore, del0, base, best0, elms0,
                         1, scores0, elms0, nextSnp0, del0, best0)
    requires Links(scoreAry, dirMatrix, insDir, limbs, base + 1, base - |ref|, elms0, scores0)
    modifies scoreAry, limbs, dirMatrix, insDir
    ensures InnerValues(g, qb, ref, above, row, colScore, del0, base, best0, elms0,
                        |ref|, scores, elms, nextSnp, del, best)
    ensures Links(scoreAry, dirMatrix, insDir, limbs, base + |ref|, base - 1, elms, scores)
  {
    nextSnp := nextSnp0;
    del := del0;
    best := best0;
    elms := elms0;
    scores := scores0;
    var j := 1;
    while j < |ref|
      invariant InnerValues(g, qb, ref, above, row, colScore, del0, base, best0, elms0,
                            j, scores, elms, nextSnp, del, best)
      invariant Links(scoreAry, dirMatrix, insDir, limbs, base + j, base - |ref| - 1 + j, elms, scores)
    {
      nextSnp, del, best, elms, scores := WaterInnerStep(alnSet, g, qb, ref, scoreAry, dirMatrix, insDir, limbs,
                                                         above, row, colScore, del0, base, best0, elms0,
                                                         j, elms, scores, nextSnp, del, best);
      j := j + 1;
    }
  }

  /** The last column of a query row: read the direction above, score the
    * cell with waterMaxEndRowScore, store it, move both cursors on and keep
    * the cell if it beats the best. */
  method WaterEndCell(alnSet: AlnSet, ghost g: Params, qb: uchar, ref: seq<uchar>,
                      scoreAry: array<int>, dirMatrix: TwoBitAry, insDir: TwoBitAry, limbs: array<bv8>,
                      ghost above: seq<Cell>, ghost row: seq<Cell>, del0: int, base: nat, ghost best0: Peak,
                      ghost elms: seq<int>, ghost scores: seq<int>, nextSnp: int, del: int, best: Peak)
      returns (best': Peak)
    requires ParamsMatch(g, alnSet) && |ref| >= 1
    requires CellReady(g, qb, ref, above, row, del0, base, |ref|, elms, scores, nextSnp, del)
    requires best == RowPeak(row, base, |ref| - 1, best0)
    requires Links(scoreAry, dirMatrix, insDir, limbs, base + |ref|, base - 1, elms, scores)
    modifies scoreAry, limbs, dirMatrix, insDir
    ensures Links(scoreAry, dirMatrix, insDir, limbs, base + |ref| + 1, base,
                  elms[base + |ref| := row[|ref|].dir], scores[|ref| := row[|ref|].score])
    ensures best' == RowPeak(row, base, |ref|, best0)
  {
    var lenRef := |ref|;
    var insD := insDir.GetTwoBitElm();
    var baseScore := alnSet.GetBaseScore(qb, ref[lenRef - 1]);
    LocalStep(g, qb, ref, above, row, del0, lenRef, baseScore, scoreAry[lenRef], insD, nextSnp, del);
    var c := WaterMaxEndRowScore(alnSet.settings.bestDir, baseScore, alnSet.settings.gapOpen, alnSet.settings.gapExtend,
                                 scoreAry[lenRef], insD, nextSnp, del);
    assert c == row[lenRef];
    StoreCell(scoreAry, dirMatrix, insDir, limbs, lenRef, c.score, c.dir, base + lenRef, base - 1, elms, scores);
    best' := best;
    if best.score < c.score {
      best' := Peak(c.score, base + lenRef);
    }
  }

  /** A query row is done: its scores, its directions from `base` on (nothing
    * before `base` changed since `elms0`), and its best cell after `best0`. */
  ghost predicate RowDone(ref: seq<uchar>, row: seq<Cell>, base: nat, best0: Peak, elms0: seq<int>,
                          elms: seq<int>, scores: seq<int>, best: Peak)
  {
    && |row| == |ref| + 1 && |scores| == |ref| + 1
    && |elms| == |elms0| && base + |ref| < |elms|
    && elms[..base] == elms0[..base]
    && elms[base..base + |ref| + 1] == Dirs(row)
    && (forall k :: 0 <= k <= |ref| ==> scores[k] == row[k].score)
    && best == RowPeak(row, base, |ref|, best0)
  }

  /** Writing the last column after the inner loop completes the row. */
  lemma EndValues(g: Params, qb: uchar, ref: seq<uchar>, above: seq<Cell>, row: seq<Cell>,
                  colScore: int, del0: int, base: nat, best0: Peak, elms0: seq<int>,
                  scores: seq<int>, elms: seq<int>, nextSnp: int, del: int, best: Peak, best': Peak)
    requires |ref| >= 1
    requires InnerValues(g, qb, ref, above, row, colScore, del0, base, best0, elms0,
                         |ref|, scores, elms, nextSnp, del, best)
    requires best' == RowPeak(row, base, |ref|, best0)
    ensures RowDone(ref, row, base, best0, elms0, elms[base + |ref| := row[|ref|].dir],
                    scores[|ref| := row[|ref|].score], best')
  {
    var elms' := elms[base + |ref| := row[|ref|].dir];
    assert elms'[..base] == elms[..base];
    assert elms'[base..base + |ref| + 1] == Dirs(row);
  }

  /** One query row: the inner loop, then the last column. On exit scoreAry
    * holds `row`, the direction elements from `base` hold the row's
    * directions, and both cursors have moved one row on. */
  method WaterScoreRow(alnSet: AlnSet, ghost g: Params, qb: uchar, ref: seq<uchar>,
                       scoreAry: array<int>, dirMatrix: TwoBitAry, insDir: TwoBitAry, limbs: array<bv8>,
                       ghost above: seq<Cell>, ghost row: seq<Cell>, del0: int, base: nat,
                       best0: Peak, ghost elms0: seq<int>, ghost scores0: seq<int>, nextSnp0: int)
      returns (best: Peak, ghost elms: seq<int>, ghost scores: seq<int>)
    requires ParamsMatch(g, alnSet) && |ref| >= 1 && |scores0| >= 1
    requires InnerValues(g, qb, ref, above, row, scores0[0], del0, base, best0, elms0,
                         1, scores0, elms0, nextSnp0, del0, best0)
    requires Links(scoreAry, dirMatrix, insDir, limbs, base + 1, base - |ref|, elms0, scores0)
    modifies scoreAry, limbs, dirMatrix, insDir
    ensures Links(scoreAry, dirMatrix, insDir, limbs, base + |ref| + 1, base, elms, scores)
    ensures RowDone(ref, row, base, best0, elms0, elms, scores, best)
  {
    var nextSnp, del;
    nextSnp, del, best, elms, scores := WaterRowInner(alnSet, g, qb, ref, scoreAry, dirMatrix, insDir, limbs,
                                                      above, row, scores0[0], del0, base, best0, elms0, scores0,
                                                      nextSnp0);
    InnerReady(g, qb, ref, above, row, scores0[0], del0, base, best0, elms0, |ref|, scores, elms, nextSnp, del, best);
    var best' := WaterEndCell(alnSet, g, qb, ref, scoreAry, dirMatrix, insDir, limbs, above, row, del0,
                              base, best0, elms, scores, nextSnp, del, best);
    EndValues(g, qb, ref, above, row, scores0[0], del0, base, best0, elms0, scores, elms, nextSnp, del, best, best');
    best := best';
    elms := elms[base + |ref| := row[|ref|].dir];
    scores := scores[|ref| := row[|ref|].score];
  }

  /** Column 0 of the next query row: a stop written through `dirMatrix`, both
    * cursors moved on, nextSnp set to the old column-0 score, and the column-0
    * score and the column-1 deletion score each one gap extension lower,
    * floored at 0. */
  method WaterColZero(gapExtend: int, scoreAry: array<int>, dirMatrix: TwoBitAry, insDir: TwoBitAry,
                      limbs: array<bv8>, d: int, u: int, ghost elms: seq<int>, ghost scores: seq<int>)
      returns (nextSnp: int, del: int)
    requires Links(scoreAry, dirMatrix, insDir, limbs, d, u, elms, scores)
    requires 0 <= d < |elms| && |scores| >= 1
    modifies scoreAry, limbs, dirMatrix, insDir
    ensures Links(scoreAry, dirMatrix, insDir, limbs, d + 1, u + 1, elms[d := MvStop],
                  scores[0 := Clamp(scores[0] + gapExtend)])
    ensures nextSnp == scores[0]
    ensures del == Clamp(Clamp(scores[0] + gapExtend) + gapExtend)
  {
    nextSnp := scoreAry[0];
    dirMatrix.ChangeTwoBitElm(ElmNum(MvStop));
    dirMatrix.TwoBitMvToNextElm();
    insDir.TwoBitMvToNextElm();
    // `x &= -(x > 0)` keeps a positive x and clears any other
    var colScore := scoreAry[0] + gapExtend;
    if colScore <= 0 {
      colScore := 0;
    }
    scoreAry[0] := colScore;
    del := scoreAry[0] + gapExtend;
    if del <= 0 {
      del := 0;
    }
  }

  /** The values the local fill holds before query row i + 1: rows 0 .. i are
    * in the direction elements up to `base`, and column 0 of row i + 1 (a
    * stop) just after; the scores are row i's with column 0 replaced by row
    * i + 1's; nextSnp is row i's column-0 score, del the deletion score for
    * column 1, and `best` the best cell of rows 1 .. i. */
  ghost predicate WaterValues(g: Params, ref: seq<uchar>, mx: seq<seq<Cell>>, i: nat, base: nat,
                              elms: seq<int>, scores: seq<int>, nextSnp: int, del: int, best: Peak)
  {
    && i < |mx| && Rectangular(mx, |ref| + 1) && |scores| == |ref| + 1
    && |elms| > |mx| * (|ref| + 1)
    && |ref| + 1 <= base < |elms|
    && elms[..base] == Flatten(mx, i + 1)
    && (forall k :: 0 <= k <= |ref| ==> elms[base - |ref| - 1 + k] == mx[i][k].dir)
    && elms[base] == MvStop
    && scores[0] == ColZeroScore(g, Local, i + 1)
    && (forall k :: 1 <= k <= |ref| ==> scores[k] == mx[i][k].score)
    && nextSnp == mx[i][0].score
    && del == DelZero(g, Local, i + 1)
    && best == MatrixPeak(mx, |ref| + 1, i)
  }

  /** The values before query row i + 1 are those the row's inner loop starts
    * from. */
  lemma StartValues(g: Params, qry: seq<uchar>, ref: seq<uchar>, mx: seq<seq<Cell>>, i: nat, base: nat,
                    elms: seq<int>, scores: seq<int>, nextSnp: int, del: int, best: Peak)
    requires IsTable(g.table) && IsIndexSeq(qry) && IsIndexSeq(ref) && |ref| >= 1
    requires MatrixFollows(g, Local, qry, ref, mx) && i < |qry|
    requires WaterValues(g, ref, mx, i, base, elms, scores, nextSnp, del, best)
    ensures InnerValues(g, qry[i], ref, mx[i], mx[i + 1], scores[0], del, base, best, elms,
                        1, scores, elms, nextSnp, del, best)
  {
    var w := |ref| + 1;
    RowFits(mx, w, i + 1);
    FlattenLength(mx, w, i + 1);
    LocalRowFollows(g, qry, ref, mx, i + 1);
    InnerStart(g, qry[i], ref, mx[i], mx[i + 1], scores[0], del, base, best, elms, scores, nextSnp);
  }

  /** Row i of a local matrix follows the cell rule from row i - 1, its stop
    * in column 0 and the first deletion score of row i. */
  lemma LocalRowFollows(g: Params, qry: seq<uchar>, ref: seq<uchar>, mx: seq<seq<Cell>>, i: nat)
    requires IsTable(g.table) && IsIndexSeq(qry) && IsIndexSeq(ref)
    requires MatrixFollows(g, Local, qry, ref, mx) && 1 <= i <= |qry|
    ensures RowFollows(g, Local, qry[i - 1], ref, mx[i - 1], Cell(ColZeroScore(g, Local, i), MvStop),
                       DelZero(g, Local, i), mx[i])
  {
    assert StepFollows(g, Local, qry, ref, mx, i);
  }

  /** Before column 1 of a row whose column 0 is already in place. */
  lemma InnerStart(g: Params, qb: uchar, ref: seq<uchar>, above: seq<Cell>, row: seq<Cell>,
                   colScore: int, del0: int, base: nat, best0: Peak, elms: seq<int>, scores: seq<int>, nextSnp: int)
    requires IsTable(g.table) && qb as int < MatrixCol && IsIndexSeq(ref)
    requires |above| == |ref| + 1 && |scores| == |ref| + 1
    requires RowFollows(g, Local, qb, ref, above, Cell(colScore, MvStop), del0, row)
    requires 1 <= |ref| && |ref| + 1 <= base && base + |ref| < |elms|
    requires forall k :: 0 <= k <= |ref| ==> elms[base - |ref| - 1 + k] == above[k].dir
    requires elms[base] == MvStop && scores[0] == colScore
    requires forall k :: 1 <= k <= |ref| ==> scores[k] == above[k].score
    requires nextSnp == above[0].score
    ensures InnerValues(g, qb, ref, above, row, colScore, del0, base, best0, elms,
                        1, scores, elms, nextSnp, del0, best0)
  {
  }

  /** A slice holding a row's directions, element by element. */
  lemma SliceDirs(elms: seq<int>, lo: nat, row: seq<Cell>)
    requires lo + |row| <= |elms| && elms[lo..lo + |row|] == Dirs(row)
    ensures forall k :: 0 <= k < |row| ==> elms[lo + k] == row[k].dir
  {
    forall k | 0 <= k < |row|
      ensures elms[lo + k] == row[k].dir
    {
      assert elms[lo..lo + |row|][k] == Dirs(row)[k];
    }
  }

  /** Below the last query row there is room for column 0 of the next row. */
  lemma NextBase(ref: seq<uchar>, mx: seq<seq<Cell>>, i: nat, base: nat, elms: seq<int>)
    requires i + 1 < |mx| && Rectangular(mx, |ref| + 1) && |elms| > |mx| * (|ref| + 1)
    requires base <= |elms| && elms[..base] == Flatten(mx, i + 1)
    ensures base == (i + 1) * (|ref| + 1) && base + |ref| + 1 < |elms|
  {
    FlattenLength(mx, |ref| + 1, i + 1);
    RowFits(mx, |ref| + 1, i + 1);
  }

  /** Filling query row i + 1 and setting up column 0 of row i + 2 (with the
    * stop at base', the column-0 score and the column-1 deletion score each
    * one gap extension `ge` lower, floored at 0) moves the fill's values from
    * row i to row i + 1. */
  lemma WaterValuesStep(g: Params, qry: seq<uchar>, ref: seq<uchar>, mx: seq<seq<Cell>>, i: nat, base: nat,
                        elms: seq<int>, scores: seq<int>, nextSnp: int, del: int, best: Peak,
                        rowElms: seq<int>, rowScores: seq<int>, rowBest: Peak, ge: int,
                        base': nat, elms': seq<int>, scores': seq<int>, nextSnp': int, del': int)
    requires IsTable(g.table) && IsIndexSeq(qry) && IsIndexSeq(ref) && |ref| >= 1
    requires MatrixFollows(g, Local, qry, ref, mx) && i < |qry|
    requires WaterValues(g, ref, mx, i, base, elms, scores, nextSnp, del, best)
    requires RowDone(ref, mx[i + 1], base, best, elms, rowElms, rowScores, rowBest)
    requires ge == g.gapExtend && base' == base + |ref| + 1 < |rowElms|
    requires elms' == rowElms[base' := MvStop] && scores' == rowScores[0 := Clamp(rowScores[0] + ge)]
    requires nextSnp' == rowScores[0] && del' == Clamp(Clamp(rowScores[0] + ge) + ge)
    ensures WaterValues(g, ref, mx, i + 1, base', elms', scores', nextSnp', del', rowBest)
  {
    var w := |ref| + 1;
    FlatStep(mx, mx[i + 1], w, i, base, elms, rowElms);
    LocalColZero(g, qry, ref, mx, i + 1);
    assert base' - |ref| - 1 == base;
  }

  /** Row i + 1 written after rows 0 .. i, and a stop after it, extend the
    * flat directions by one row. */
  lemma FlatStep(mx: seq<seq<Cell>>, row: seq<Cell>, w: nat, i: nat, base: nat, elms: seq<int>, rowElms: seq<int>)
    requires Rectangular(mx, w) && 1 <= w && i + 1 < |mx| && row == mx[i + 1] && |elms| > |mx| * w
    requires base <= |elms| && elms[..base] == Flatten(mx, i + 1)
    requires |rowElms| == |elms| && rowElms[..base] == elms[..base]
    requires base + w <= |rowElms| && rowElms[base..base + w] == Dirs(mx[i + 1])
    ensures base == (i + 1) * w && base + w < |rowElms|
    ensures rowElms[base + w := MvStop][..base + w] == Flatten(mx, i + 2)
    ensures forall k :: 0 <= k < w ==> rowElms[base + w := MvStop][base + k] == row[k].dir
  {
    FlattenLength(mx, w, i + 1);
    RowFits(mx, w, i + 1);
    assert rowElms[..base + w] == Flatten(mx, i + 2) by {
      assert rowElms[..base + w] == rowElms[..base] + rowElms[base..base + w];
    }
    var elms' := rowElms[base + w := MvStop];
    assert elms'[..base + w] == rowElms[..base + w];
    SliceDirs(rowElms, base, row);
  }

  /** One pass of the row loop: fills query row i + 1, keeps its best cell,
    * and sets up column 0 of the next row. */
  method WaterNextRow(alnSet: AlnSet, ghost g: Params, qry: seq<uchar>, ref: seq<uchar>, ghost mx: seq<seq<Cell>>,
                      scoreAry: array<int>, dirMatrix: TwoBitAry, insDir: TwoBitAry, limbs: array<bv8>,
                      i: nat, base: nat, ghost elms: seq<int>, ghost scores: seq<int>,
                      nextSnp: int, del: int, best: Peak)
      returns (base': nat, ghost elms': seq<int>, ghost scores': seq<int>, nextSnp': int, del': int, best': Peak)
    requires ParamsMatch(g, alnSet)
    requires IsIndexSeq(qry) && IsIndexSeq(ref) && |ref| >= 1
    requires MatrixFollows(g, Local, qry, ref, mx) && i < |qry|
    requires WaterValues(g, ref, mx, i, base, elms, scores, nextSnp, del, best)
    requires Links(scoreAry, dirMatrix, insDir, limbs, base + 1, base - |ref|, elms, scores)
    modifies scoreAry, limbs, dirMatrix, insDir
    ensures ParamsMatch(g, alnSet)
    ensures WaterValues(g, ref, mx, i + 1, base', elms', scores', nextSnp', del', best')
    ensures Links(scoreAry, dirMatrix, insDir, limbs, base' + 1, base' - |ref|, elms', scores')
  {
    StartValues(g, qry, ref, mx, i, base, elms, scores, nextSnp, del, best);
    NextBase(ref, mx, i, base, elms);
    var gapExtend := alnSet.settings.gapExtend;
    assert gapExtend == g.gapExtend;
    ghost var rowElms, rowScores;
    best', rowElms, rowScores := WaterScoreRow(alnSet, g, qry[i], ref, scoreAry, dirMatrix, insDir, limbs,
                                               mx[i], mx[i + 1], del, base, best, elms, scores, nextSnp);
    base' := base + |ref| + 1;
    nextSnp', del' := WaterColZero(gapExtend, scoreAry, dirMatrix, insDir, limbs, base', base, rowElms, rowScores);
    elms' := rowElms[base' := MvStop];
    scores' := rowScores[0 := Clamp(rowScores[0] + gapExtend)];
    WaterValuesStep(g, qry, ref, mx, i, base, elms, scores, nextSnp, del, best, rowElms, rowScores, best',
                    gapExtend, base', elms', scores', nextSnp', del');
    assert base' - |ref| == base + 1;
  }

  /** Query rows 1 .. |qry|, one WaterNextRow each, from the state after the
    * gap row. */
  method WaterFillRows(alnSet: AlnSet, ghost g: Params, qry: seq<uchar>, ref: seq<uchar>, ghost mx: seq<seq<Cell>>,
                       scoreAry: array<int>, dirMatrix: TwoBitAry, insDir: TwoBitAry, limbs: array<bv8>,
                       ghost elms0: seq<int>, ghost scores0: seq<int>, nextSnp0: int, del0: int, best0: Peak)
      returns (base: nat, ghost elms: seq<int>, best: Peak)
    requires ParamsMatch(g, alnSet)
    requires IsIndexSeq(qry) && IsIndexSeq(ref) && |ref| >= 1
    requires MatrixFollows(g, Local, qry, ref, mx)
    requires WaterValues(g, ref, mx, 0, |ref| + 1, elms0, scores0, nextSnp0, del0, best0)
    requires Links(scoreAry, dirMatrix, insDir, limbs, |ref| + 2, 1, elms0, scores0)
    modifies scoreAry, limbs, dirMatrix, insDir
    ensures dirMatrix.firstLimb == limbs && dirMatrix.Valid() && dirMatrix.Index() == base + 1
    ensures ElmsOf(limbs[..]) == elms && |ref| + 1 <= base < |elms| && elms[base] == MvStop
    ensures elms[..base] == Flatten(mx, |qry| + 1)
    ensures best == MatrixPeak(mx, |ref| + 1, |qry|)
  {
    var i := 0;
    base := |ref| + 1;
    elms := elms0;
    ghost var scores := scores0;
    var nextSnp, del;
    nextSnp, del, best := nextSnp0, del0, best0;
    while i < |qry|
      invariant i <= |qry|
      invariant ParamsMatch(g, alnSet)
      invariant WaterValues(g, ref, mx, i, base, elms, scores, nextSnp, del, best)
      invariant Links(scoreAry, dirMatrix, insDir, limbs, base + 1, base - |ref|, elms, scores)
    {
      base, elms, scores, nextSnp, del, best :=
        WaterNextRow(alnSet, g, qry, ref, mx, scoreAry, dirMatrix, insDir, limbs,
                     i, base, elms, scores, nextSnp, del, best);
      i := i + 1;
    }
  }

  /** The gap row: lenRef + 1 stops written from the start of the buffer,
    * leaving the writing cursor on element lenRef + 1. */
  method WaterRowZero(dirMatrix: TwoBitAry, limbs: array<bv8>, lenRef: nat)
    requires dirMatrix.firstLimb == limbs && dirMatrix.Valid() && dirMatrix.Index() == 0
    requires lenRef + 1 <= 4 * limbs.Length
    modifies dirMatrix, limbs
    ensures dirMatrix.firstLimb == limbs && dirMatrix.Valid() && dirMatrix.Index() == lenRef + 1
    ensures dirMatrix.lenAry == old(dirMatrix.lenAry)
    ensures forall k :: 0 <= k < 4 * limbs.Length ==>
              ElmsOf(limbs[..])[k] == if k <= lenRef then MvStop else old(ElmsOf(limbs[..]))[k]
  {
    var indexUL := 0;
    while indexUL <= lenRef
      invariant indexUL <= lenRef + 1
      invariant dirMatrix.firstLimb == limbs && dirMatrix.Valid() && dirMatrix.Index() == indexUL
      invariant dirMatrix.lenAry == old(dirMatrix.lenAry)
      invariant forall k :: 0 <= k < 4 * limbs.Length ==>
                  ElmsOf(limbs[..])[k] == if k < indexUL then MvStop else old(ElmsOf(limbs[..]))[k]
    {
      dirMatrix.ChangeTwoBitElm(ElmNum(MvStop));
      dirMatrix.TwoBitMvToNextElm();
      indexUL := indexUL + 1;
    }
  }

  /** The values before query row 1: the gap row and column 0 of row 1 are
    * stops, and the zeroed scores, nextSnp and del are those of the gap row. */
  lemma WaterStart(g: Params, qry: seq<uchar>, ref: seq<uchar>, mx: seq<seq<Cell>>, elms: seq<int>, scores: seq<int>)
    requires IsTable(g.table) && IsIndexSeq(qry) && IsIndexSeq(ref) && |ref| >= 1
    requires MatrixFollows(g, Local, qry, ref, mx)
    requires |elms| > |mx| * (|ref| + 1)
    requires forall k :: 0 <= k <= |ref| + 1 ==> elms[k] == MvStop
    requires |scores| == |ref| + 1 && forall k :: 0 <= k <= |ref| ==> scores[k] == 0
    ensures WaterValues(g, ref, mx, 0, |ref| + 1, elms, scores, 0, 0, Peak(0, 0))
  {
    var w := |ref| + 1;
    MulMono(1, |mx|, w);
    assert Flatten(mx, 1) == Dirs(mx[0]);
    assert elms[..w] == Dirs(mx[0]);
  }

  /** The whole local fill: the gap row, then every query row, then the
    * writing cursor is put back on the bottom-right cell (the stop after the
    * last row is written once more on the way). Returns the best cell. */
  method WaterFillMatrix(alnSet: AlnSet, ghost g: Params, qry: seq<uchar>, ref: seq<uchar>, ghost mx: seq<seq<Cell>>,
                         scoreAry: array<int>, dirMatrix: TwoBitAry) returns (best: Peak)
    requires ParamsMatch(g, alnSet)
    requires IsIndexSeq(qry) && IsIndexSeq(ref) && |ref| >= 1
    requires MatrixFollows(g, Local, qry, ref, mx)
    requires dirMatrix.Valid() && dirMatrix.Index() == 0 && dirMatrix.firstLimb != null
    requires scoreAry as object != dirMatrix.firstLimb
    requires (|qry| + 1) * (|ref| + 1) < 4 * dirMatrix.firstLimb.Length
    requires scoreAry.Length == |ref| + 1 && forall k :: 0 <= k < scoreAry.Length ==> scoreAry[k] == 0
    modifies scoreAry, dirMatrix, dirMatrix.firstLimb
    ensures dirMatrix.firstLimb == old(dirMatrix.firstLimb)
    ensures dirMatrix.Valid() && dirMatrix.Index() == |qry| * (|ref| + 1) + |ref|
    ensures ElmsOf(dirMatrix.firstLimb[..])[..|mx| * (|ref| + 1) + 1] == Flatten(mx, |mx|) + [MvStop]
    ensures best == MatrixPeak(mx, |ref| + 1, |qry|)
  {
    var insDir, nextSnp;
    ghost var elms, scores;
    insDir, nextSnp, elms, scores := WaterFirstRow(alnSet, g, qry, ref, mx, scoreAry, dirMatrix);
    var limbs := dirMatrix.firstLimb;
    var base;
    base, elms, best := WaterFillRows(alnSet, g, qry, ref, mx, scoreAry, dirMatrix, insDir, limbs,
                                      elms, scores, nextSnp, 0, Peak(0, 0));
    WaterLastCell(dirMatrix, limbs, mx, qry, ref, base, elms);
  }

  /** Row zero of the local fill: every cell of the first row and the first
    * cell of the next one hold a stop, the score row is zero, and the
    * insertion cursor trails the direction cursor by one row. */
  method WaterFirstRow(alnSet: AlnSet, ghost g: Params, qry: seq<uchar>, ref: seq<uchar>, ghost mx: seq<seq<Cell>>,
                       scoreAry: array<int>, dirMatrix: TwoBitAry)
      returns (insDir: TwoBitAry, nextSnp: int, ghost elms: seq<int>, ghost scores: seq<int>)
    requires ParamsMatch(g, alnSet)
    requires IsIndexSeq(qry) && IsIndexSeq(ref) && |ref| >= 1
    requires MatrixFollows(g, Local, qry, ref, mx)
    requires dirMatrix.Valid() && dirMatrix.Index() == 0 && dirMatrix.firstLimb != null
    requires scoreAry as object != dirMatrix.firstLimb
    requires (|qry| + 1) * (|ref| + 1) < 4 * dirMatrix.firstLimb.Length
    requires scoreAry.Length == |ref| + 1 && forall k :: 0 <= k < scoreAry.Length ==> scoreAry[k] == 0
    modifies scoreAry, dirMatrix, dirMatrix.firstLimb
    ensures fresh(insDir) && dirMatrix.firstLimb == old(dirMatrix.firstLimb)
    ensures ParamsMatch(g, alnSet)
    ensures WaterValues(g, ref, mx, 0, |ref| + 1, elms, scores, nextSnp, 0, Peak(0, 0))
    ensures Links(scoreAry, dirMatrix, insDir, dirMatrix.firstLimb, |ref| + 2, 1, elms, scores)
  {
    MulMono(1, |qry| + 1, |ref| + 1);
    insDir, nextSnp := WaterStops(scoreAry, dirMatrix, |ref|);
    elms := ElmsOf(dirMatrix.firstLimb[..]);
    scores := scoreAry[..];
    WaterStart(g, qry, ref, mx, elms, scores);
  }

  /** The stops of row zero and of the first cell of row one, the zeroed score
    * row, and the insertion cursor one row behind the direction cursor. */
  method WaterStops(scoreAry: array<int>, dirMatrix: TwoBitAry, lenRef: nat) returns (insDir: TwoBitAry, nextSnp: int)
    requires dirMatrix.Valid() && dirMatrix.Index() == 0 && dirMatrix.firstLimb != null
    requires scoreAry as object != dirMatrix.firstLimb
    requires lenRef + 2 <= 4 * dirMatrix.firstLimb.Length
    requires scoreAry.Length == lenRef + 1 && forall k :: 0 <= k < scoreAry.Length ==> scoreAry[k] == 0
    modifies scoreAry, dirMatrix, dirMatrix.firstLimb
    ensures fresh(insDir) && dirMatrix.firstLimb == old(dirMatrix.firstLimb) && nextSnp == 0
    ensures Links(scoreAry, dirMatrix, insDir, dirMatrix.firstLimb, lenRef + 2, 1, ElmsOf(dirMatrix.firstLimb[..]), scoreAry[..])
    ensures |ElmsOf(dirMatrix.firstLimb[..])| == 4 * dirMatrix.firstLimb.Length
    ensures forall k :: 0 <= k <= lenRef + 1 ==> ElmsOf(dirMatrix.firstLimb[..])[k] == MvStop
    ensures forall k :: 0 <= k <= lenRef ==> scoreAry[k] == 0
  {
    var limbs := dirMatrix.firstLimb;
    insDir := new TwoBitAry.Blank();
    dirMatrix.CpTwoBitPos(insDir);
    WaterRowZero(dirMatrix, limbs, lenRef);
    nextSnp := scoreAry[0];
    scoreAry[0] := 0;
    dirMatrix.ChangeTwoBitElm(ElmNum(MvStop));
    dirMatrix.TwoBitMvToNextElm();
    insDir.TwoBitMvToNextElm();
  }

  /** Back to the stop after the last row, which is written again, and back
    * once more onto the bottom-right cell; the elements do not change. */
  method WaterLastCell(dirMatrix: TwoBitAry, limbs: array<bv8>, ghost mx: seq<seq<Cell>>,
                       ghost qry: seq<uchar>, ghost ref: seq<uchar>, base: nat, ghost elms: seq<int>)
    requires dirMatrix.firstLimb == limbs && dirMatrix.Valid() && dirMatrix.Index() == base + 1
    requires ElmsOf(limbs[..]) == elms && |ref| + 1 <= base < |elms| && elms[base] == MvStop
    requires |mx| == |qry| + 1 && Rectangular(mx, |ref| + 1) && elms[..base] == Flatten(mx, |qry| + 1)
    modifies dirMatrix, limbs
    ensures dirMatrix.firstLimb == limbs && dirMatrix.Valid() && dirMatrix.Index() == |qry| * (|ref| + 1) + |ref|
    ensures |mx| * (|ref| + 1) < |ElmsOf(limbs[..])|
    ensures ElmsOf(limbs[..])[..|mx| * (|ref| + 1) + 1] == Flatten(mx, |mx|) + [MvStop]
  {
    FlatEnd(mx, |qry|, |ref|, base, elms);
    dirMatrix.TwoBitMvBackOneElm();
    dirMatrix.ChangeTwoBitElm(ElmNum(MvStop));
    dirMatrix.TwoBitMvBackOneElm();
    assert elms[base := MvStop] == elms;
  }

  /** After the last row the flat elements are the matrix followed by a stop. */
  lemma FlatEnd(mx: seq<seq<Cell>>, n: nat, lenRef: nat, base: nat, elms: seq<int>)
    requires lenRef + 1 <= base < |elms| && elms[base] == MvStop
    requires |mx| == n + 1 && Rectangular(mx, lenRef + 1) && elms[..base] == Flatten(mx, n + 1)
    ensures base == n * (lenRef + 1) + lenRef + 1
    ensures |mx| * (lenRef + 1) < |elms| && elms[..|mx| * (lenRef + 1) + 1] == Flatten(mx, |mx|) + [MvStop]
  {
    FlattenLength(mx, lenRef + 1, n + 1);
    assert elms[..base + 1] == elms[..base] + [elms[base]];
  }

  /** The traceback can walk the stored local matrix from any cell: the gap
    * row and the gap column are stops. */
  lemma WaterWalkable(g: Params, qry: seq<uchar>, ref: seq<uchar>, mx: seq<seq<Cell>>, t: Traceback)
    requires IsTable(g.table) && IsIndexSeq(qry) && IsIndexSeq(ref)
    requires MatrixFollows(g, Local, qry, ref, mx)
    requires t.qry == qry && t.ref == ref && IsTable(t.matches) && t.dirs == Flatten(mx, |mx|) + [MvStop]
    ensures Walkable(t)
  {
    forall i, j | 0 <= i <= |qry| && 0 <= j <= |ref|
      ensures IsDir(mx[i][j].dir)
      ensures i == 0 || j == 0 ==> mx[i][j].dir == MvStop
    {
      LocalCellBounds(g, qry, ref, mx, i, j);
    }
    FlatWalkable(mx, t);
  }

  /** WaterTwoBit: a Smith-Waterman fill of the query bases
    * qrySeq[qryOffset..qryEnd] against the reference bases
    * refSeq[refOffset..refEnd] (both inclusive, already lookup indexes).
    * Returns null when an allocation fails (`allocFails`); otherwise a matrix
    * whose 2-bit directions are those of the local recurrence (`mx`, which by
    * MatrixFollowsUnique is Matrix) stored row after row and followed by a
    * stop, with the writing cursor on the bottom-right cell, and whose best
    * score and best end index are the first maximum of the row-major scan
    * (MatrixPeak; MatrixPeakFirst says what that is). */
  method WaterTwoBitAln(qrySeq: seq<uchar>, qryOffset: nat, qryEnd: nat,
                        refSeq: seq<uchar>, refOffset: nat, refEnd: nat,
                        alnSet: AlnSet, allocFails: bool) returns (m: AlnMatrixTwoBit?, ghost mx: seq<seq<Cell>>)
    requires qryOffset <= qryEnd < |qrySeq| && refOffset <= refEnd < |refSeq|
    requires IsIndexSeq(qrySeq) && IsIndexSeq(refSeq)
    requires alnSet.Valid()
    ensures allocFails <==> m == null
    ensures m != null ==>
              && fresh(m) && m.dirMatrix != null && fresh(m.dirMatrix)
              && m.dirMatrix.firstLimb != null && fresh(m.dirMatrix.firstLimb)
              && MatrixFollows(ParamsOf(alnSet), Local, qrySeq[qryOffset..qryEnd + 1], refSeq[refOffset..refEnd + 1], mx)
              && m.lenRef == refEnd - refOffset + 1 && m.refOffset == refOffset
              && m.lenQry == qryEnd - qryOffset + 1 && m.qryOffset == qryOffset
              && |mx| * (m.lenRef + 1) < 4 * m.dirMatrix.firstLimb.Length
              && ElmsOf(m.dirMatrix.firstLimb[..])[..|mx| * (m.lenRef + 1) + 1] == Flatten(mx, |mx|) + [MvStop]
              && m.dirMatrix.Valid() && m.dirMatrix.Index() == m.lenQry * (m.lenRef + 1) + m.lenRef
              && Peak(m.bestScore, m.bestEndIndex) == MatrixPeak(mx, m.lenRef + 1, m.lenQry)
              && m.bestStartIndex == 0 && m.lenArrays == 0
              && m.scoreAry == null && m.startIndexAry == null && m.endIndexAry == null
    ensures m != null ==>
              Walkable(Traceback(ElmsOf(m.dirMatrix.firstLimb[..])[..|mx| * (m.lenRef + 1) + 1],
                                 qrySeq[qryOffset..qryEnd + 1], refSeq[refOffset..refEnd + 1], alnSet.MatchRows()))
  {
    var qry := qrySeq[qryOffset..qryEnd + 1];
    var ref := refSeq[refOffset..refEnd + 1];
    ghost var g := ParamsOf(alnSet);
    ParamsOfMatches(alnSet);
    mx := RecurrenceMatrix(g, Local, qry, ref);
    WaterWalkable(g, qry, ref, mx, Traceback(Flatten(mx, |mx|) + [MvStop], qry, ref, alnSet.MatchRows()));
    var lenMatrix := (|ref| + 1) * (|qry| + 1);

    var dirMatrix := MakeTwoBit(lenMatrix + 1, false, allocFails);
    if dirMatrix == null {
      return null, mx;
    }
    m := NewWaterMatrix(alnSet, g, qry, ref, mx, qryOffset, refOffset, dirMatrix);
  }

  /** A new alnMatrixTwoBit holding the local fill of `qry` against `ref`
    * (offsets `qryOffset` and `refOffset` in the caller's sequences) in the
    * zeroed direction matrix `dirMatrix` that makeTwoBit returned. */
  method NewWaterMatrix(alnSet: AlnSet, ghost g: Params, qry: seq<uchar>, ref: seq<uchar>, ghost mx: seq<seq<Cell>>,
                        qryOffset: nat, refOffset: nat, dirMatrix: TwoBitAry) returns (m: AlnMatrixTwoBit)
    requires ParamsMatch(g, alnSet)
    requires IsIndexSeq(qry) && IsIndexSeq(ref) && |ref| >= 1
    requires MatrixFollows(g, Local, qry, ref, mx)
    requires dirMatrix.Valid() && dirMatrix.Index() == 0 && dirMatrix.firstLimb != null
    requires (|qry| + 1) * (|ref| + 1) < 4 * dirMatrix.firstLimb.Length
    modifies dirMatrix, dirMatrix.firstLimb
    ensures fresh(m) && m.dirMatrix == dirMatrix && dirMatrix.firstLimb == old(dirMatrix.firstLimb)
    ensures m.lenRef == |ref| && m.refOffset == refOffset
    ensures m.lenQry == |qry| && m.qryOffset == qryOffset
    ensures ElmsOf(dirMatrix.firstLimb[..])[..|mx| * (|ref| + 1) + 1] == Flatten(mx, |mx|) + [MvStop]
    ensures dirMatrix.Valid() && dirMatrix.Index() == |qry| * (|ref| + 1) + |ref|
    ensures Peak(m.bestScore, m.bestEndIndex) == MatrixPeak(mx, |ref| + 1, |qry|)
    ensures m.bestStartIndex == 0 && m.lenArrays == 0
    ensures m.scoreAry == null && m.startIndexAry == null && m.endIndexAry == null
  {
    var scoreAry := new int[|ref| + 1](_ => 0);
    var best := WaterFillMatrix(alnSet, g, qry, ref, mx, scoreAry, dirMatrix);
    m := WaterMatrixOf(dirMatrix, |ref|, refOffset, |qry|, qryOffset, best);
  }

  /** The alnMatrixTwoBit that waterAln hands back: the filled direction
    * matrix, the lengths and offsets of the aligned parts, and the best
    * score with the index of its cell. */
  method WaterMatrixOf(dirMatrix: TwoBitAry, lenRef: nat, refOffset: nat, lenQry: nat, qryOffset: nat, best: Peak)
    returns (m: AlnMatrixTwoBit)
    ensures fresh(m) && m.dirMatrix == dirMatrix
    ensures m.lenRef == lenRef && m.refOffset == refOffset
    ensures m.lenQry == lenQry && m.qryOffset == qryOffset
    ensures Peak(m.bestScore, m.bestEndIndex) == best
    ensures m.bestStartIndex == 0 && m.lenArrays == 0
    ensures m.scoreAry == null && m.startIndexAry == null && m.endIndexAry == null
  {
    m := new AlnMatrixTwoBit();
    m.dirMatrix := dirMatrix;
    m.lenRef := lenRef;
    m.refOffset := refOffset;
    m.lenQry := lenQry;
    m.qryOffset := qryOffset;
    m.bestScore := best.score;
    m.bestEndIndex := best.index;
  }
}
