/** The global alignment fill of needleman/needleman.h: one row of scores and a
  * direction matrix of (lenRef + 1) * (lenQry + 1) + 1 cells, filled row by row
  * with the cell rule of genNeedle.h.
  *
  * The specification is the recurrence the fill computes, row by row: row 0 is
  * a stop followed by deletions, column 0 is insertions, and every other cell
  * is the best move (under the preference order) over the diagonal, the cell
  * above and the cell to the left, with affine gap scores. */
module Needleman {
  import opened DataTypeShortHand
  import opened GenAln
  import opened GenNeedle
  import opened AlnSetStruct
  import opened AlnMatrixStruct
  import opened AlnRecurrence
  import opened AlnStructs

  /** Each row's column-0 score is one gap extension below the previous one. */
  lemma ColZeroStep(g: Params, i: nat)
    requires i >= 1
    ensures ColZeroScore(g, Global, i + 1) == ColZeroScore(g, Global, i) + g.gapExtend
  {
    assert i * g.gapExtend == (i - 1) * g.gapExtend + g.gapExtend;
  }

  /** The recurrence of an inner cell, read off the finished rows. */
  lemma InnerCell(g: Params, qry: seq<uchar>, ref: seq<uchar>, i: nat, j: nat)
    requires IsTable(g.table) && IsIndexSeq(qry) && IsIndexSeq(ref)
    requires 1 <= i <= |qry| && 1 <= j <= |ref|
    ensures var up := Row(g, Global, qry, ref, i - 1);
            var row := Row(g, Global, qry, ref, i);
            row[j] == Best(g.pref,
                           up[j - 1].score + g.table[qry[i - 1]][ref[j - 1]],
                           IndelScore(up[j].score, up[j].dir, g.gapOpen, g.gapExtend),
                           IndelScore(row[j - 1].score, row[j - 1].dir, g.gapOpen, g.gapExtend))
  {
    var up := Row(g, Global, qry, ref, i - 1);
    RowCellRule(g, Global, qry[i - 1], ref, up, ColZero(g, Global, i), DelZero(g, Global, i), j, |ref|);
    RowCellsPrefix(g, Global, qry[i - 1], ref, up, ColZero(g, Global, i), DelZero(g, Global, i), |ref|, 0);
  }

  /** Only the corner cell (0, 0) is a stop: row 0 holds deletions, column 0
    * insertions, and every inner cell a real move, so a traceback from any
    * cell runs until the start of both sequences. */
  lemma OnlyCornerStops(g: Params, qry: seq<uchar>, ref: seq<uchar>, i: nat, j: nat)
    requires IsTable(g.table) && IsIndexSeq(qry) && IsIndexSeq(ref)
    requires i <= |qry| && j <= |ref|
    ensures Row(g, Global, qry, ref, i)[j].dir == MvStop <==> i == 0 && j == 0
    ensures IsDir(Row(g, Global, qry, ref, i)[j].dir)
    ensures i == 0 && j > 0 ==> Row(g, Global, qry, ref, i)[j].dir == MvDel
    ensures i > 0 && j == 0 ==> Row(g, Global, qry, ref, i)[j].dir == MvIns
  {
    if i > 0 {
      var up := Row(g, Global, qry, ref, i - 1);
      var row := Row(g, Global, qry, ref, i);
      if j == 0 {
        RowCellsPrefix(g, Global, qry[i - 1], ref, up, ColZero(g, Global, i), DelZero(g, Global, i), |ref|, 0);
        assert row[0] == RowCells(g, Global, qry[i - 1], ref, up, ColZero(g, Global, i), DelZero(g, Global, i), 0)[0];
      } else {
        InnerCellIsBest(g, qry, ref, i, j);
      }
    }
  }

  /** An inner cell's score is what its direction's move gives and is at least
    * every other move's score. */
  lemma InnerCellIsBest(g: Params, qry: seq<uchar>, ref: seq<uchar>, i: nat, j: nat)
    requires IsTable(g.table) && IsIndexSeq(qry) && IsIndexSeq(ref)
    requires 1 <= i <= |qry| && 1 <= j <= |ref|
    ensures var up := Row(g, Global, qry, ref, i - 1);
            var row := Row(g, Global, qry, ref, i);
            var snp := up[j - 1].score + g.table[qry[i - 1]][ref[j - 1]];
            var ins := IndelScore(up[j].score, up[j].dir, g.gapOpen, g.gapExtend);
            var del := IndelScore(row[j - 1].score, row[j - 1].dir, g.gapOpen, g.gapExtend);
            && (row[j].dir == MvDel || row[j].dir == MvIns || row[j].dir == MvSnp)
            && row[j].score == Candidate(row[j].dir, snp, ins, del)
            && row[j].score >= snp && row[j].score >= ins && row[j].score >= del
  {
    var up := Row(g, Global, qry, ref, i - 1);
    var row := Row(g, Global, qry, ref, i);
    var snp := up[j - 1].score + g.table[qry[i - 1]][ref[j - 1]];
    var ins := IndelScore(up[j].score, up[j].dir, g.gapOpen, g.gapExtend);
    var del := IndelScore(row[j - 1].score, row[j - 1].dir, g.gapOpen, g.gapExtend);
    InnerCell(g, qry, ref, i, j);
    BestIsFirstMaximum(g.pref, snp, ins, del);
    CharMaxScoreIsMove(g.pref, snp, ins, del);
  }

  /** The inner loop of one query row of the fill: columns 1 .. lenRef - 1 by
    * needleMaxScore. On entry scoreAry holds the row above, with column 0
    * already replaced by this row's insertion score, nextSnp the old column-0
    * score and del the deletion score for column 1. On exit columns 0 ..
    * lenRef - 1 of scoreAry and of the row's directions hold the new row,
    * nextSnp the score above-left of the last column and del its deletion
    * score. `insBase` and `base` are the matrix offsets of the row above and of
    * this row. */
  method FillRowInner(alnSet: AlnSet, ghost g: Params, qb: uchar, ref: seq<uchar>,
                      scoreAry: array<int>, dirMatrix: array<int>, insBase: nat, base: nat,
                      ghost above: seq<Cell>, ghost row: seq<Cell>, nextSnp0: int, del0: int)
      returns (nextSnp: int, del: int)
    requires ParamsMatch(g, alnSet)
    requires qb as int < MatrixCol && IsIndexSeq(ref) && |ref| >= 1
    requires scoreAry != dirMatrix
    requires |above| == |ref| + 1 && scoreAry.Length == |ref| + 1
    requires RowFollows(g, Global, qb, ref, above, Cell(scoreAry[0], MvIns), del0, row)
    requires base == insBase + |ref| + 1 && base + |ref| < dirMatrix.Length
    requires dirMatrix[base] == MvIns
    requires forall k :: 1 <= k <= |ref| ==> scoreAry[k] == above[k].score
    requires forall k :: 0 <= k <= |ref| ==> dirMatrix[insBase + k] == above[k].dir
    requires nextSnp0 == above[0].score
    modifies scoreAry, dirMatrix
    ensures forall k :: 0 <= k < |ref| ==> scoreAry[k] == row[k].score
    ensures scoreAry[|ref|] == above[|ref|].score
    ensures forall k :: 0 <= k < |ref| ==> dirMatrix[base + k] == row[k].dir
    ensures forall k :: 0 <= k < base ==> dirMatrix[k] == old(dirMatrix[k])
    ensures nextSnp == above[|ref| - 1].score
    ensures del == if |ref| == 1 then del0 else IndelScore(row[|ref| - 1].score, row[|ref| - 1].dir, g.gapOpen, g.gapExtend)
  {
    var lenRef := |ref|;
    var gapOpen := alnSet.settings.gapOpen;
    var gapExtend := alnSet.settings.gapExtend;
    nextSnp := nextSnp0;
    del := del0;
    var j := 1;
    while j <= lenRef - 1
      invariant 1 <= j <= lenRef
      invariant forall k :: 0 <= k < j ==> scoreAry[k] == row[k].score
      invariant forall k :: j <= k <= lenRef ==> scoreAry[k] == above[k].score
      invariant forall k :: 0 <= k < j ==> dirMatrix[base + k] == row[k].dir
      invariant forall k :: 0 <= k < base ==> dirMatrix[k] == old(dirMatrix[k])
      invariant nextSnp == above[j - 1].score
      invariant del == if j == 1 then del0 else IndelScore(row[j - 1].score, row[j - 1].dir, gapOpen, gapExtend)
    {
      var baseScore := alnSet.GetBaseScore(qb, ref[j - 1]);
      var aboveDir := dirMatrix[insBase + j];
      var u := NeedleMaxScore(alnSet.settings.bestDir, baseScore, gapOpen, gapExtend, scoreAry[j], aboveDir, nextSnp, del);
      InnerRowCell(g, qb, ref, above, Cell(old(scoreAry[0]), MvIns), del0, row, j, baseScore, aboveDir, nextSnp, del);
      scoreAry[j] := u.score;
      dirMatrix[base + j] := u.dir;
      nextSnp := u.nextSnp;
      del := u.del;
      j := j + 1;
    }
  }

  /** needleMaxScore, given the cell above, the score above-left of it and
    * the deletion score of the cell to its left, yields cell j of a row that
    * follows the cell rule. */
  lemma InnerRowCell(g: Params, qb: uchar, ref: seq<uchar>, above: seq<Cell>, colZero: Cell, del0: int,
                     row: seq<Cell>, j: nat, baseScore: int, aboveDir: int, nextSnp: int, del: int)
    requires IsTable(g.table) && qb as int < MatrixCol && IsIndexSeq(ref) && 1 <= j <= |ref|
    requires |above| == |ref| + 1
    requires RowFollows(g, Global, qb, ref, above, colZero, del0, row)
    requires baseScore == g.table[qb][ref[j - 1]] && aboveDir == above[j].dir
    requires nextSnp == above[j - 1].score
    requires del == if j == 1 then del0 else IndelScore(row[j - 1].score, row[j - 1].dir, g.gapOpen, g.gapExtend)
    ensures var u := NeedleMaxScore(g.pref, baseScore, g.gapOpen, g.gapExtend, above[j].score, aboveDir, nextSnp, del);
            Cell(u.score, u.dir) == row[j]
  {
    assert row[j] == NextCell(g, Global, qb, ref, above, row, del0, j);
  }

  /** The end-of-row rule, given the last cell of the row above, the score
    * above-left of it and the deletion score of the cell to its left, yields
    * the last cell of a row that follows the cell rule. */
  lemma EndRowCell(g: Params, qb: uchar, ref: seq<uchar>, above: seq<Cell>, colZero: Cell, del0: int,
                   row: seq<Cell>, baseScore: int, nextSnp: int, del: int)
    requires IsTable(g.table) && qb as int < MatrixCol && IsIndexSeq(ref) && |ref| >= 1
    requires |above| == |ref| + 1
    requires RowFollows(g, Global, qb, ref, above, colZero, del0, row)
    requires baseScore == g.table[qb][ref[|ref| - 1]]
    requires nextSnp == above[|ref| - 1].score
    requires del == if |ref| == 1 then del0 else IndelScore(row[|ref| - 1].score, row[|ref| - 1].dir, g.gapOpen, g.gapExtend)
    ensures NeedleMaxEndRowScore(g.pref, baseScore, g.gapOpen, g.gapExtend, above[|ref|].score, above[|ref|].dir,
                                 nextSnp, del) == row[|ref|]
  {
    assert row[|ref|] == NextCell(g, Global, qb, ref, above, row, del0, |ref|);
  }

  /** One query row of the fill: the inner loop, then needleMaxEndRowScore for
    * the last column. On exit scoreAry and the row's directions hold `row`. */
  method ScoreRow(alnSet: AlnSet, ghost g: Params, qb: uchar, ref: seq<uchar>,
                  scoreAry: array<int>, dirMatrix: array<int>, insBase: nat, base: nat,
                  ghost above: seq<Cell>, ghost row: seq<Cell>, nextSnp0: int, del0: int)
    requires ParamsMatch(g, alnSet)
    requires qb as int < MatrixCol && IsIndexSeq(ref) && |ref| >= 1
    requires scoreAry != dirMatrix
    requires |above| == |ref| + 1 && scoreAry.Length == |ref| + 1
    requires RowFollows(g, Global, qb, ref, above, Cell(scoreAry[0], MvIns), del0, row)
    requires base == insBase + |ref| + 1 && base + |ref| < dirMatrix.Length
    requires dirMatrix[base] == MvIns
    requires forall k :: 1 <= k <= |ref| ==> scoreAry[k] == above[k].score
    requires dirMatrix[insBase..base] == Dirs(above)
    requires nextSnp0 == above[0].score
    modifies scoreAry, dirMatrix
    ensures forall k :: 0 <= k <= |ref| ==> scoreAry[k] == row[k].score
    ensures dirMatrix[base..base + |ref| + 1] == Dirs(row)
    ensures dirMatrix[..base] == old(dirMatrix[..base])
  {
    var lenRef := |ref|;
    assert forall k :: 0 <= k <= |ref| ==> dirMatrix[insBase + k] == dirMatrix[insBase..base][k];
    var nextSnp, del := FillRowInner(alnSet, g, qb, ref, scoreAry, dirMatrix, insBase, base,
                                     above, row, nextSnp0, del0);
    var baseScore := alnSet.GetBaseScore(qb, ref[lenRef - 1]);
    var aboveDir := dirMatrix[insBase + lenRef];
    assert aboveDir == above[lenRef].dir;
    var c := NeedleMaxEndRowScore(alnSet.settings.bestDir, baseScore, alnSet.settings.gapOpen,
                                  alnSet.settings.gapExtend, scoreAry[lenRef], aboveDir, nextSnp, del);
    EndRowCell(g, qb, ref, above, Cell(old(scoreAry[0]), MvIns), del0, row, baseScore, nextSnp, del);
    scoreAry[lenRef] := c.score;
    dirMatrix[base + lenRef] := c.dir;
    assert dirMatrix[base..base + lenRef + 1] == Dirs(row);
  }

  /** Row 0 of the fill: a stop, a deletion scoring gapOpen, and deletions each
    * gapExtend lower up to the last column. */
  method FillRowZero(ghost g: Params, gapOpen: int, gapExtend: int, lenRef: nat,
                     scoreAry: array<int>, dirMatrix: array<int>)
    requires g.gapOpen == gapOpen && g.gapExtend == gapExtend
    requires lenRef >= 1 && scoreAry.Length == lenRef + 1 && lenRef < dirMatrix.Length
    requires scoreAry != dirMatrix
    modifies scoreAry, dirMatrix
    ensures forall k :: 0 <= k <= lenRef ==> scoreAry[k] == RowZero(g, Global, lenRef)[k].score
    ensures dirMatrix[..lenRef + 1] == Dirs(RowZero(g, Global, lenRef))
  {
    dirMatrix[0] := MvStop;
    scoreAry[0] := 0;
    dirMatrix[1] := MvDel;
    scoreAry[1] := gapOpen;
    var j := 2;
    while j <= lenRef
      invariant 2 <= j <= lenRef + 1
      invariant forall k :: 0 <= k < j ==> scoreAry[k] == RowZero(g, Global, lenRef)[k].score
      invariant forall k :: 0 <= k < j ==> dirMatrix[k] == RowZero(g, Global, lenRef)[k].dir
    {
      dirMatrix[j] := MvDel;
      scoreAry[j] := scoreAry[j - 1] + gapExtend;
      assert (j - 1) * gapExtend == (j - 2) * gapExtend + gapExtend;
      j := j + 1;
    }
    assert dirMatrix[..lenRef + 1] == Dirs(RowZero(g, Global, lenRef));
  }

  /** The state of the fill before query row i + 1: rows 0 .. i are in the
    * direction matrix up to `base`, row i starting at `insBase`; column 0 of
    * row i + 1 is set up; scoreAry holds row i with column 0 advanced by one
    * gap extension; nextSnp is row i's column-0 score and del the deletion
    * score for column 1. */
  ghost predicate FillState(g: Params, ref: seq<uchar>, mx: seq<seq<Cell>>,
                            scoreAry: array<int>, dirMatrix: array<int>,
                            i: nat, insBase: nat, base: nat, nextSnp: int, del: int)
    reads scoreAry, dirMatrix
  {
    && i < |mx| && Rectangular(mx, |ref| + 1) && scoreAry.Length == |ref| + 1
    && base == insBase + |ref| + 1 && base < dirMatrix.Length
    && dirMatrix[..base] == Flatten(mx, i + 1)
    && dirMatrix[insBase..base] == Dirs(mx[i])
    && dirMatrix[base] == MvIns
    && scoreAry[0] == ColZeroScore(g, Global, i + 1)
    && (forall k :: 1 <= k <= |ref| ==> scoreAry[k] == mx[i][k].score)
    && nextSnp == mx[i][0].score
    && del == DelZero(g, Global, i + 1)
  }

  /** The end of a pass of the row loop, once row i + 1 is in the score
    * array and the direction matrix: the next row's insertion cell and
    * column-0 scores are set up. */
  method NextRowStart(ghost g: Params, ref: seq<uchar>, ghost mx: seq<seq<Cell>>,
                      scoreAry: array<int>, dirMatrix: array<int>, i: nat, base: nat, gapExtend: int)
      returns (insBase': nat, base': nat, nextSnp': int, del': int)
    requires i + 1 < |mx| && Rectangular(mx, |ref| + 1) && scoreAry.Length == |ref| + 1
    requires scoreAry != dirMatrix && gapExtend == g.gapExtend
    requires base + |ref| + 1 < dirMatrix.Length
    requires dirMatrix[..base] == Flatten(mx, i + 1)
    requires dirMatrix[base..base + |ref| + 1] == Dirs(mx[i + 1])
    requires scoreAry[0] == ColZeroScore(g, Global, i + 1)
    requires forall k :: 1 <= k <= |ref| ==> scoreAry[k] == mx[i + 1][k].score
    requires scoreAry[0] == mx[i + 1][0].score
    modifies scoreAry, dirMatrix
    ensures FillState(g, ref, mx, scoreAry, dirMatrix, i + 1, insBase', base', nextSnp', del')
  {
    var w := |ref| + 1;
    assert dirMatrix[..base + w] == Flatten(mx, i + 2) by {
      assert dirMatrix[..base + w] == dirMatrix[..base] + dirMatrix[base..base + w];
    }
    insBase' := base;
    base' := base + w;
    ghost var filled := dirMatrix[..base'];
    dirMatrix[base'] := MvIns;
    assert dirMatrix[..base'] == filled;
    nextSnp' := scoreAry[0];
    ghost var row := scoreAry[..];
    ColZeroStep(g, i + 1);
    scoreAry[0] := scoreAry[0] + gapExtend;
    assert forall k :: 1 <= k <= |ref| ==> scoreAry[k] == row[k] == mx[i + 1][k].score;
    del' := scoreAry[0] + gapExtend;
  }

  /** One pass of the row loop: fills query row i + 1 and sets up the next. */
  method NextRow(alnSet: AlnSet, ghost g: Params, qry: seq<uchar>, ref: seq<uchar>,
                 ghost mx: seq<seq<Cell>>, scoreAry: array<int>, dirMatrix: array<int>,
                 i: nat, insBase: nat, base: nat, nextSnp: int, del: int)
      returns (insBase': nat, base': nat, nextSnp': int, del': int)
    requires ParamsMatch(g, alnSet)
    requires IsIndexSeq(qry) && IsIndexSeq(ref) && |ref| >= 1
    requires MatrixFollows(g, Global, qry, ref, mx) && i < |qry|
    requires scoreAry != dirMatrix && dirMatrix.Length == |mx| * (|ref| + 1) + 1
    requires FillState(g, ref, mx, scoreAry, dirMatrix, i, insBase, base, nextSnp, del)
    modifies scoreAry, dirMatrix
    ensures FillState(g, ref, mx, scoreAry, dirMatrix, i + 1, insBase', base', nextSnp', del')
  {
    var gapExtend := alnSet.settings.gapExtend;
    RowFits(mx, |ref| + 1, i + 1);
    assert StepFollows(g, Global, qry, ref, mx, i + 1);
    ScoreRow(alnSet, g, qry[i], ref, scoreAry, dirMatrix, insBase, base,
             mx[i], mx[i + 1], nextSnp, del);
    insBase', base', nextSnp', del' := NextRowStart(g, ref, mx, scoreAry, dirMatrix, i, base, gapExtend);
  }

  /** The rows of the query, one after another: on entry row 0 is filled and
    * column 0 of row 1 is set up; on exit all rows of `mx` are in the direction
    * matrix, scoreAry holds the last row (its column 0 advanced by one gap
    * extension), and `base` is the offset one row past the last, `insBase`
    * that of the last row. */
  method FillRows(alnSet: AlnSet, ghost g: Params, qry: seq<uchar>, ref: seq<uchar>,
                  ghost mx: seq<seq<Cell>>, scoreAry: array<int>, dirMatrix: array<int>)
      returns (insBase: nat, base: nat)
    requires ParamsMatch(g, alnSet)
    requires IsIndexSeq(qry) && IsIndexSeq(ref) && |ref| >= 1
    requires MatrixFollows(g, Global, qry, ref, mx)
    requires scoreAry != dirMatrix
    requires scoreAry.Length == |ref| + 1 && dirMatrix.Length == |mx| * (|ref| + 1) + 1
    requires dirMatrix[..|ref| + 1] == Dirs(mx[0])
    requires dirMatrix[|ref| + 1] == MvIns
    requires scoreAry[0] == ColZeroScore(g, Global, 1)
    requires forall k :: 1 <= k <= |ref| ==> scoreAry[k] == mx[0][k].score
    modifies scoreAry, dirMatrix
    ensures base == insBase + |ref| + 1 && base < dirMatrix.Length
    ensures dirMatrix[..base] == Flatten(mx, |mx|)
    ensures scoreAry[|ref|] == mx[|qry|][|ref|].score
  {
    var lenQry := |qry|;
    insBase := 0;
    base := |ref| + 1;
    var nextSnp := 0;
    var del := alnSet.settings.gapOpen + alnSet.settings.gapExtend;
    RowFits(mx, |ref| + 1, 0);
    assert dirMatrix[..base] == Flatten(mx, 1);
    var i := 0;
    while i < lenQry
      invariant i <= lenQry
      invariant FillState(g, ref, mx, scoreAry, dirMatrix, i, insBase, base, nextSnp, del)
    {
      insBase, base, nextSnp, del := NextRow(alnSet, g, qry, ref, mx, scoreAry, dirMatrix,
                                             i, insBase, base, nextSnp, del);
      i := i + 1;
    }
  }

  /** Row 0, the query rows and the closing stop in a direction matrix of
    * |mx| * (lenRef + 1) + 1 cells; returns the bottom-right score and the
    * index of the bottom-right cell. */
  method FillMatrix(alnSet: AlnSet, ghost g: Params, qry: seq<uchar>, ref: seq<uchar>,
                    ghost mx: seq<seq<Cell>>, scoreAry: array<int>, dirMatrix: array<int>)
      returns (bestScore: int, bestEndIndex: nat)
    requires ParamsMatch(g, alnSet)
    requires IsIndexSeq(qry) && IsIndexSeq(ref) && |qry| >= 1 && |ref| >= 1
    requires MatrixFollows(g, Global, qry, ref, mx)
    requires scoreAry != dirMatrix
    requires scoreAry.Length == |ref| + 1 && dirMatrix.Length == |mx| * (|ref| + 1) + 1
    modifies scoreAry, dirMatrix
    ensures dirMatrix[..] == Flatten(mx, |mx|) + [MvStop]
    ensures bestScore == mx[|qry|][|ref|].score
    ensures bestEndIndex == |qry| * (|ref| + 1) + |ref|
  {
    var lenRef := |ref|;
    var w := lenRef + 1;
    MulMono(2, |mx|, w);
    FillRowZero(g, alnSet.settings.gapOpen, alnSet.settings.gapExtend, lenRef, scoreAry, dirMatrix);
    scoreAry[0] := alnSet.settings.gapOpen;
    dirMatrix[w] := MvIns;
    assert dirMatrix[..w] == Dirs(mx[0]);
    var insBase, base := FillRows(alnSet, g, qry, ref, mx, scoreAry, dirMatrix);
    FlattenLength(mx, w, |mx|);
    assert base == dirMatrix.Length - 1;
    assert (|qry| + 1) * w == |qry| * w + w;

    bestScore := scoreAry[lenRef];
    ghost var filled := dirMatrix[..base];
    dirMatrix[insBase + lenRef + 1] := MvStop;
    bestEndIndex := base - 1;
    assert dirMatrix[..] == filled + [MvStop];
  }

  /** A new alnMatrix holding the fill of `qry` against `ref` (offsets
    * `qryOffset` and `refOffset` in the caller's sequences). */
  method NewFilledMatrix(alnSet: AlnSet, ghost g: Params, qry: seq<uchar>, ref: seq<uchar>,
                         ghost mx: seq<seq<Cell>>, qryOffset: nat, refOffset: nat) returns (m: AlnMatrix)
    requires ParamsMatch(g, alnSet)
    requires IsIndexSeq(qry) && IsIndexSeq(ref) && |qry| >= 1 && |ref| >= 1
    requires MatrixFollows(g, Global, qry, ref, mx)
    ensures fresh(m) && m.dirMatrix != null && fresh(m.dirMatrix)
    ensures m.lenRef == |ref| && m.refOffset == refOffset
    ensures m.lenQry == |qry| && m.qryOffset == qryOffset
    ensures m.dirMatrix[..] == Flatten(mx, |mx|) + [MvStop]
    ensures m.bestScore == mx[|qry|][|ref|].score
    ensures m.bestEndIndex == |qry| * (|ref| + 1) + |ref|
    ensures m.bestStartIndex == 0
    ensures m.scoreAry == null && m.startIndexAry == null && m.endIndexAry == null
  {
    var dirMatrix := new int[(|qry| + 1) * (|ref| + 1) + 1];
    var scoreAry := new int[|ref| + 1];
    var bestScore, bestEndIndex := FillMatrix(alnSet, g, qry, ref, mx, scoreAry, dirMatrix);
    m := NeedleMatrixOf(dirMatrix, |ref|, refOffset, |qry|, qryOffset, bestScore, bestEndIndex);
  }

  /** The alnMatrix needlemanAln returns: the filled direction matrix, the
    * windows, and the last cell as the best score, no start and no arrays. */
  method NeedleMatrixOf(dirMatrix: array<int>, lenRef: nat, refOffset: nat, lenQry: nat, qryOffset: nat,
                        bestScore: int, bestEndIndex: nat) returns (m: AlnMatrix)
    ensures fresh(m) && m.dirMatrix == dirMatrix
    ensures m.lenRef == lenRef && m.refOffset == refOffset
    ensures m.lenQry == lenQry && m.qryOffset == qryOffset
    ensures m.bestScore == bestScore && m.bestEndIndex == bestEndIndex
    ensures m.bestStartIndex == 0
    ensures m.scoreAry == null && m.startIndexAry == null && m.endIndexAry == null
  {
    m := new AlnMatrix();
    m.dirMatrix := dirMatrix;
    m.lenRef := lenRef;
    m.refOffset := refOffset;
    m.lenQry := lenQry;
    m.qryOffset := qryOffset;
    m.bestScore := bestScore;
    m.bestEndIndex := bestEndIndex;
  }

  /** The traceback can walk the stored global matrix from any cell: only the
    * corner stops, the gap row holds deletions and the gap column insertions. */
  lemma NeedleWalkable(g: Params, qry: seq<uchar>, ref: seq<uchar>, mx: seq<seq<Cell>>, t: Traceback)
    requires IsTable(g.table) && IsIndexSeq(qry) && IsIndexSeq(ref)
    requires MatrixFollows(g, Global, qry, ref, mx)
    requires t.qry == qry && t.ref == ref && IsTable(t.matches) && t.dirs == Flatten(mx, |mx|) + [MvStop]
    ensures Walkable(t)
  {
    MatrixFollowsUnique(g, Global, qry, ref, mx);
    forall i, j | 0 <= i <= |qry| && 0 <= j <= |ref|
      ensures IsDir(mx[i][j].dir)
      ensures i == 0 ==> mx[i][j].dir != MvIns && mx[i][j].dir != MvSnp
      ensures j == 0 ==> mx[i][j].dir != MvDel && mx[i][j].dir != MvSnp
    {
      OnlyCornerStops(g, qry, ref, i, j);
    }
    FlatWalkable(mx, t);
  }

  /** NeedlemanAln: aligns the query bases qrySeq[qryOffset..qryEnd] against the
    * reference bases refSeq[refOffset..refEnd] (both inclusive, already lookup
    * indexes). Returns null when an allocation fails (`allocFails`); otherwise
    * a matrix whose directions are those of the recurrence (`mx`, which by
    * MatrixFollowsUnique is Matrix) stored row after row and followed by a
    * stop, whose best score is the bottom-right cell's and whose best end
    * index is that cell's index. */
  method NeedlemanAln(qrySeq: seq<uchar>, qryOffset: nat, qryEnd: nat,
                      refSeq: seq<uchar>, refOffset: nat, refEnd: nat,
                      alnSet: AlnSet, allocFails: bool) returns (m: AlnMatrix?, ghost mx: seq<seq<Cell>>)
    requires qryOffset <= qryEnd < |qrySeq| && refOffset <= refEnd < |refSeq|
    requires IsIndexSeq(qrySeq) && IsIndexSeq(refSeq)
    requires alnSet.Valid()
    ensures allocFails <==> m == null
    ensures m != null ==>
              && fresh(m) && m.dirMatrix != null && fresh(m.dirMatrix)
              && MatrixFollows(ParamsOf(alnSet), Global, qrySeq[qryOffset..qryEnd + 1], refSeq[refOffset..refEnd + 1], mx)
              && m.lenRef == refEnd - refOffset + 1 && m.refOffset == refOffset
              && m.lenQry == qryEnd - qryOffset + 1 && m.qryOffset == qryOffset
              && m.dirMatrix[..] == Flatten(mx, |mx|) + [MvStop]
              && m.bestScore == mx[m.lenQry][m.lenRef].score
              && m.bestEndIndex == m.lenQry * (m.lenRef + 1) + m.lenRef
              && m.bestStartIndex == 0
              && m.scoreAry == null && m.startIndexAry == null && m.endIndexAry == null
    ensures m != null ==> WindowsFit(m, refSeq, qrySeq) && Walkable(MatrixTrace(m, refSeq, qrySeq, alnSet))
  {
    var qry := qrySeq[qryOffset..qryEnd + 1];
    var ref := refSeq[refOffset..refEnd + 1];
    ghost var g := ParamsOf(alnSet);
    ParamsOfMatches(alnSet);
    mx := RecurrenceMatrix(g, Global, qry, ref);
    if allocFails {
      return null, mx;
    }
    m := NewFilledMatrix(alnSet, g, qry, ref, mx, qryOffset, refOffset);
    NeedleWalkable(g, qry, ref, mx, MatrixTrace(m, refSeq, qrySeq, alnSet));
  }
}
