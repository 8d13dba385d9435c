/** The linear-memory local alignment of memWater/memWater.h: no direction
  * matrix, only one row of scores, one row of directions and two rows of start
  * indexes (the current query row and the row above, swapped after every row).
  * Every cell follows the local rule of genWater.h and carries the matrix index
  * where the alignment ending in it starts (waterScanMaxScore); the best cell
  * is kept with its start and end indexes.
  *
  * The specification is the recurrence of AlnRecurrence in local mode, the
  * first maximum of the row-major scan (MatrixPeak) and the traceback start
  * of a cell (StartOf). */
module MemWater {
  import opened DataTypeShortHand
  import opened GenAln
  import opened GenWater
  import opened GenScan
  import opened AlnSetStruct
  import opened AlnMatrixStruct
  import opened AlnRecurrence
  import opened WaterTwoBit

  // ---------------------------------------------------------------------------
  // Start indexes
  // ---------------------------------------------------------------------------

  /** The cell where the local alignment ending in cell (i, j) starts: follow
    * the kept moves back from (i, j) until a cell of the gap row, of the gap
    * column, or one that scores 0 (a stop). It lies above and to the left of
    * (i, j). */
  ghost function StartCell(mx: seq<seq<Cell>>, w: nat, i: nat, j: nat): (s: (nat, nat))
    requires Rectangular(mx, w) && i < |mx| && j < w
    ensures s.0 <= i && s.1 <= j
    ensures s.0 == 0 || s.1 == 0 || mx[s.0][s.1].score <= 0
    decreases i + j
  {
    if i == 0 || j == 0 || mx[i][j].score <= 0 then (i, j)
    else if mx[i][j].dir == MvDel then StartCell(mx, w, i, j - 1)
    else if mx[i][j].dir == MvIns then StartCell(mx, w, i - 1, j)
    else StartCell(mx, w, i - 1, j - 1)
  }

  /** The matrix index of the start cell of (i, j). */
  ghost function StartOf(mx: seq<seq<Cell>>, w: nat, i: nat, j: nat): int
    requires Rectangular(mx, w) && i < |mx| && j < w
  {
    var s := StartCell(mx, w, i, j);
    s.0 * w + s.1
  }

  /** The start kept with the cell at matrix index `index` (0 outside the
    * matrix, which the start of the best cell only is before any cell
    * scores). */
  ghost function StartAt(mx: seq<seq<Cell>>, w: nat, index: int): int
    requires Rectangular(mx, w) && w >= 1
  {
    if 0 <= index && index / w < |mx| then StartOf(mx, w, index / w, index % w) else 0
  }

  /** The start never comes after the cell: 0 <= StartOf(i, j) <= i * w + j. */
  lemma StartOfBefore(mx: seq<seq<Cell>>, w: nat, i: nat, j: nat)
    requires Rectangular(mx, w) && i < |mx| && j < w
    ensures 0 <= StartOf(mx, w, i, j) <= i * w + j
  {
    var s := StartCell(mx, w, i, j);
    MulMono(s.0, i, w);
  }

  /** One step of the traceback is what waterScanMaxScore computes from the
    * starts of the three neighbours: the start of the kept move for a
    * positive cell, the cell's own index for a dropped one. */
  lemma StartStep(mx: seq<seq<Cell>>, w: nat, r: nat, j: nat)
    requires Rectangular(mx, w) && 1 <= r < |mx| && 1 <= j < w
    ensures StartOf(mx, w, r, j)
            == if mx[r][j].score > 0
               then PosOf(mx[r][j].dir, StartOf(mx, w, r - 1, j - 1), StartOf(mx, w, r - 1, j),
                          StartOf(mx, w, r, j - 1))
               else r * w + j
  {
  }

  /** The index of cell (r, j) names that cell back. */
  lemma StartAtCell(mx: seq<seq<Cell>>, w: nat, r: nat, j: nat)
    requires Rectangular(mx, w) && r < |mx| && j < w
    ensures StartAt(mx, w, r * w + j) == StartOf(mx, w, r, j)
  {
    LemmaDivModUnique(r * w + j, w, r, j);
  }

  // ---------------------------------------------------------------------------
  // The four row buffers
  // ---------------------------------------------------------------------------

  /** The fill's rows: scoreAryL holds `scores`, dirRow `dirs`, indexAryUL
    * (the current row of starts) `idx` and oldIndexAryUL (the row above)
    * `oldIdx`; the four are distinct arrays. */
  ghost predicate Buffers(scoreAry: array<int>, dirRow: array<int>, indexAry: array<int>, oldIndexAry: array<int>,
                          scores: seq<int>, dirs: seq<int>, idx: seq<int>, oldIdx: seq<int>)
    reads scoreAry, dirRow, indexAry, oldIndexAry
  {
    && scoreAry != dirRow && scoreAry != indexAry && scoreAry != oldIndexAry
    && dirRow != indexAry && dirRow != oldIndexAry && indexAry != oldIndexAry
    && scoreAry[..] == scores && dirRow[..] == dirs && indexAry[..] == idx && oldIndexAry[..] == oldIdx
  }

  // ---------------------------------------------------------------------------
  // One query row
  // ---------------------------------------------------------------------------

  /** What scoring column j of query row r needs: the cell rule gives cell j
    * from the row above and cell j - 1, the score and direction at j are the
    * row above's, the starts of the three neighbours are in place, and
    * nextSnp and del are the diagonal score and the deletion score. */
  ghost predicate MemReady(g: Params, qb: uchar, ref: seq<uchar>, mx: seq<seq<Cell>>, w: nat, r: nat,
                           above: seq<Cell>, row: seq<Cell>, del0: int, j: nat,
                           scores: seq<int>, dirs: seq<int>, idx: seq<int>, oldIdx: seq<int>, nextSnp: int, del: int)
  {
    && IsTable(g.table) && qb as int < MatrixCol && IsIndexSeq(ref)
    && w == |ref| + 1 && Rectangular(mx, w) && 1 <= r < |mx| && above == mx[r - 1] && row == mx[r]
    && 1 <= j <= |ref|
    && |scores| == w && |dirs| == w && |idx| == w && |oldIdx| == w
    && row[j] == NextCell(g, Local, qb, ref, above, row, del0, j)
    && scores[j] == above[j].score && dirs[j] == above[j].dir
    && oldIdx[j - 1] == StartOf(mx, w, r - 1, j - 1) && oldIdx[j] == StartOf(mx, w, r - 1, j)
    && idx[j - 1] == StartOf(mx, w, r, j - 1)
    && nextSnp == above[j - 1].score
    && del == (if j == 1 then del0 else IndelScore(row[j - 1].score, row[j - 1].dir, g.gapOpen, g.gapExtend))
  }

  /** waterScanMaxScore on the values MemReady describes gives cell j of the
    * row, its start, and the nextSnp and del of column j + 1. */
  lemma ScanCellStep(g: Params, qb: uchar, ref: seq<uchar>, mx: seq<seq<Cell>>, w: nat, r: nat,
                     above: seq<Cell>, row: seq<Cell>, del0: int, j: nat,
                     scores: seq<int>, dirs: seq<int>, idx: seq<int>, oldIdx: seq<int>, nextSnp: int, del: int,
                     baseScore: int, curIndex: int)
    requires MemReady(g, qb, ref, mx, w, r, above, row, del0, j, scores, dirs, idx, oldIdx, nextSnp, del)
    requires baseScore == g.table[qb][ref[j - 1]] && curIndex == r * w + j
    ensures var u := WaterScanMaxScore(g.pref, baseScore, g.gapOpen, g.gapExtend, scores[j], dirs[j],
                                       nextSnp, del, oldIdx[j - 1], oldIdx[j], idx[j - 1], curIndex);
            && u.score == row[j].score && u.dir == row[j].dir && u.index == StartOf(mx, w, r, j)
            && u.nextSnp == above[j].score
            && u.del == IndelScore(row[j].score, row[j].dir, g.gapOpen, g.gapExtend)
  {
    LocalStep(g, qb, ref, above, row, del0, j, baseScore, scores[j], dirs[j], nextSnp, del);
    WaterScanAgreesWithWater(g.pref, baseScore, g.gapOpen, g.gapExtend, scores[j], dirs[j], nextSnp, del,
                             oldIdx[j - 1], oldIdx[j], idx[j - 1], curIndex);
    StartStep(mx, w, r, j);
  }

  /** The values the inner loop of query row r holds before column j: scores
    * and directions are this row's in columns 0 .. j - 1 and the row above's
    * after that, the current starts are this row's up to j - 1 and the old
    * starts the row above's; nextSnp and del are those of column j, `best`
    * is the best cell of columns 1 .. j - 1 met after `best0` and `bestStart`
    * its start. */
  ghost predicate MemInner(g: Params, qb: uchar, ref: seq<uchar>, mx: seq<seq<Cell>>, w: nat, r: nat,
                           above: seq<Cell>, row: seq<Cell>, colScore: int, del0: int, base: nat, best0: Peak,
                           j: nat, scores: seq<int>, dirs: seq<int>, idx: seq<int>, oldIdx: seq<int>,
                           nextSnp: int, del: int, best: Peak, bestStart: int)
  {
    && IsTable(g.table) && qb as int < MatrixCol && IsIndexSeq(ref)
    && w == |ref| + 1 && Rectangular(mx, w) && 1 <= r < |mx| && above == mx[r - 1] && row == mx[r]
    && base == r * w
    && RowFollows(g, Local, qb, ref, above, Cell(colScore, MvStop), del0, row)
    && 1 <= j <= |ref|
    && |scores| == w && |dirs| == w && |idx| == w && |oldIdx| == w
    && (forall k :: 0 <= k < j ==> scores[k] == row[k].score && dirs[k] == row[k].dir)
    && (forall k :: j <= k < w ==> scores[k] == above[k].score && dirs[k] == above[k].dir)
    && (forall k :: 0 <= k < j ==> idx[k] == StartOf(mx, w, r, k))
    && (forall k :: 0 <= k < w ==> oldIdx[k] == StartOf(mx, w, r - 1, k))
    && nextSnp == above[j - 1].score
    && del == (if j == 1 then del0 else IndelScore(row[j - 1].score, row[j - 1].dir, g.gapOpen, g.gapExtend))
    && best == RowPeak(row, base, j - 1, best0)
    && bestStart == StartAt(mx, w, best.index)
  }

  /** The inner loop's values before column j have what scoring it needs. */
  lemma MemInnerReady(g: Params, qb: uchar, ref: seq<uchar>, mx: seq<seq<Cell>>, w: nat, r: nat,
                      above: seq<Cell>, row: seq<Cell>, colScore: int, del0: int, base: nat, best0: Peak,
                      j: nat, scores: seq<int>, dirs: seq<int>, idx: seq<int>, oldIdx: seq<int>,
                      nextSnp: int, del: int, best: Peak, bestStart: int)
    requires MemInner(g, qb, ref, mx, w, r, above, row, colScore, del0, base, best0,
                      j, scores, dirs, idx, oldIdx, nextSnp, del, best, bestStart)
    ensures MemReady(g, qb, ref, mx, w, r, above, row, del0, j, scores, dirs, idx, oldIdx, nextSnp, del)
  {
  }

  /** Column j done: writing cell j, its start and the best cell moves the
    * loop's values on to column j + 1. */
  lemma MemInnerNext(g: Params, qb: uchar, ref: seq<uchar>, mx: seq<seq<Cell>>, w: nat, r: nat,
                     above: seq<Cell>, row: seq<Cell>, colScore: int, del0: int, base: nat, best0: Peak,
                     j: nat, scores: seq<int>, dirs: seq<int>, idx: seq<int>, oldIdx: seq<int>,
                     nextSnp: int, del: int, best: Peak, bestStart: int)
    requires j < |ref|
    requires MemInner(g, qb, ref, mx, w, r, above, row, colScore, del0, base, best0,
                      j, scores, dirs, idx, oldIdx, nextSnp, del, best, bestStart)
    ensures MemInner(g, qb, ref, mx, w, r, above, row, colScore, del0, base, best0,
                     j + 1, scores[j := row[j].score], dirs[j := row[j].dir], idx[j := StartOf(mx, w, r, j)], oldIdx,
                     above[j].score, IndelScore(row[j].score, row[j].dir, g.gapOpen, g.gapExtend),
                     if best.score < row[j].score then Peak(row[j].score, base + j) else best,
                     if best.score < row[j].score then StartOf(mx, w, r, j) else bestStart)
  {
    StartAtCell(mx, w, r, j);
  }

  /** One waterScanMaxScore call: score cell j of query row r (at matrix index
    * indexUL) with its start, store them in the row buffers, and keep the
    * cell and its start when it beats the best. */
  method MemCell(alnSet: AlnSet, ghost g: Params, qb: uchar, ref: seq<uchar>, ghost mx: seq<seq<Cell>>,
                 ghost w: nat, ghost r: nat, ghost above: seq<Cell>, ghost row: seq<Cell>, ghost del0: int,
                 scoreAry: array<int>, dirRow: array<int>, indexAry: array<int>, oldIndexAry: array<int>,
                 j: nat, indexUL: int, ghost scores: seq<int>, ghost dirs: seq<int>, ghost idx: seq<int>,
                 ghost oldIdx: seq<int>, nextSnp: int, del: int, best: Peak, bestStart: int)
      returns (nextSnp': int, del': int, best': Peak, bestStart': int)
    requires ParamsMatch(g, alnSet) && indexUL == r * w + j
    requires MemReady(g, qb, ref, mx, w, r, above, row, del0, j, scores, dirs, idx, oldIdx, nextSnp, del)
    requires Buffers(scoreAry, dirRow, indexAry, oldIndexAry, scores, dirs, idx, oldIdx)
    modifies scoreAry, dirRow, indexAry
    ensures Buffers(scoreAry, dirRow, indexAry, oldIndexAry, scores[j := row[j].score], dirs[j := row[j].dir],
                    idx[j := StartOf(mx, w, r, j)], oldIdx)
    ensures nextSnp' == above[j].score
    ensures del' == IndelScore(row[j].score, row[j].dir, g.gapOpen, g.gapExtend)
    ensures best' == if best.score < row[j].score then Peak(row[j].score, indexUL) else best
    ensures bestStart' == if best.score < row[j].score then StartOf(mx, w, r, j) else bestStart
  {
    var baseScore := alnSet.GetBaseScore(qb, ref[j - 1]);
    ScanCellStep(g, qb, ref, mx, w, r, above, row, del0, j, scores, dirs, idx, oldIdx, nextSnp, del,
                 baseScore, indexUL);
    var u := WaterScanMaxScore(alnSet.settings.bestDir, baseScore, alnSet.settings.gapOpen,
                               alnSet.settings.gapExtend, scoreAry[j], dirRow[j], nextSnp, del,
                               oldIndexAry[j - 1], oldIndexAry[j], indexAry[j - 1], indexUL);
    scoreAry[j] := u.score;
    dirRow[j] := u.dir;
    indexAry[j] := u.index;
    best', bestStart' := best, bestStart;
    if best.score < scoreAry[j] {
      best' := Peak(scoreAry[j], indexUL);
      bestStart' := indexAry[j];
    }
    nextSnp' := u.nextSnp;
    del' := u.del;
  }

  /** Column j of the inner loop moves the loop's values on to column j + 1. */
  method MemInnerStep(alnSet: AlnSet, ghost g: Params, qb: uchar, ref: seq<uchar>, ghost mx: seq<seq<Cell>>,
                      ghost w: nat, ghost r: nat, ghost above: seq<Cell>, ghost row: seq<Cell>,
                      ghost colScore: int, ghost del0: int, ghost base: nat, ghost best0: Peak,
                      scoreAry: array<int>, dirRow: array<int>, indexAry: array<int>, oldIndexAry: array<int>,
                      j: nat, indexUL: int, ghost scores: seq<int>, ghost dirs: seq<int>, ghost idx: seq<int>,
                      ghost oldIdx: seq<int>, nextSnp: int, del: int, best: Peak, bestStart: int)
      returns (ghost scores': seq<int>, ghost dirs': seq<int>, ghost idx': seq<int>,
               nextSnp': int, del': int, best': Peak, bestStart': int)
    requires ParamsMatch(g, alnSet) && j < |ref| && indexUL == base + j
    requires MemInner(g, qb, ref, mx, w, r, above, row, colScore, del0, base, best0,
                      j, scores, dirs, idx, oldIdx, nextSnp, del, best, bestStart)
    requires Buffers(scoreAry, dirRow, indexAry, oldIndexAry, scores, dirs, idx, oldIdx)
    modifies scoreAry, dirRow, indexAry
    ensures MemInner(g, qb, ref, mx, w, r, above, row, colScore, del0, base, best0,
                     j + 1, scores', dirs', idx', oldIdx, nextSnp', del', best', bestStart')
    ensures Buffers(scoreAry, dirRow, indexAry, oldIndexAry, scores', dirs', idx', oldIdx)
  {
    MemInnerReady(g, qb, ref, mx, w, r, above, row, colScore, del0, base, best0,
                  j, scores, dirs, idx, oldIdx, nextSnp, del, best, bestStart);
    MemInnerNext(g, qb, ref, mx, w, r, above, row, colScore, del0, base, best0,
                 j, scores, dirs, idx, oldIdx, nextSnp, del, best, bestStart);
    nextSnp', del', best', bestStart' := MemCell(alnSet, g, qb, ref, mx, w, r, above, row, del0,
                                                 scoreAry, dirRow, indexAry, oldIndexAry, j, indexUL,
                                                 scores, dirs, idx, oldIdx, nextSnp, del, best, bestStart);
    scores' := scores[j := row[j].score];
    dirs' := dirs[j := row[j].dir];
    idx' := idx[j := StartOf(mx, w, r, j)];
  }

  /** The inner loop of query row r: columns 1 .. lenRef - 1 by
    * waterScanMaxScore, indexUL counting the matrix index of the cell. */
  method MemRowInner(alnSet: AlnSet, ghost g: Params, qb: uchar, ref: seq<uchar>, ghost mx: seq<seq<Cell>>,
                     ghost w: nat, ghost r: nat, ghost above: seq<Cell>, ghost row: seq<Cell>,
                     ghost colScore: int, del0: int, ghost base: nat, best0: Peak, bestStart0: int,
                     scoreAry: array<int>, dirRow: array<int>, indexAry: array<int>, oldIndexAry: array<int>,
                     indexUL0: int, ghost scores0: seq<int>, ghost dirs0: seq<int>, ghost idx0: seq<int>,
                     ghost oldIdx: seq<int>, nextSnp0: int)
      returns (indexUL: int, ghost scores: seq<int>, ghost dirs: seq<int>, ghost idx: seq<int>,
               nextSnp: int, del: int, best: Peak, bestStart: int)
    requires ParamsMatch(g, alnSet) && |ref| >= 1 && indexUL0 == base + 1
    requires MemInner(g, qb, ref, mx, w, r, above, row, colScore, del0, base, best0,
                      1, scores0, dirs0, idx0, oldIdx, nextSnp0, del0, best0, bestStart0)
    requires Buffers(scoreAry, dirRow, indexAry, oldIndexAry, scores0, dirs0, idx0, oldIdx)
    modifies scoreAry, dirRow, indexAry
    ensures indexUL == base + |ref|
    ensures MemInner(g, qb, ref, mx, w, r, above, row, colScore, del0, base, best0,
                     |ref|, scores, dirs, idx, oldIdx, nextSnp, del, best, bestStart)
    ensures Buffers(scoreAry, dirRow, indexAry, oldIndexAry, scores, dirs, idx, oldIdx)
  {
    indexUL := indexUL0;
    scores, dirs, idx := scores0, dirs0, idx0;
    nextSnp, del, best, bestStart := nextSnp0, del0, best0, bestStart0;
    var j := 1;
    while j < |ref|
      invariant indexUL == base + j
      invariant MemInner(g, qb, ref, mx, w, r, above, row, colScore, del0, base, best0,
                         j, scores, dirs, idx, oldIdx, nextSnp, del, best, bestStart)
      invariant Buffers(scoreAry, dirRow, indexAry, oldIndexAry, scores, dirs, idx, oldIdx)
    {
      scores, dirs, idx, nextSnp, del, best, bestStart :=
        MemInnerStep(alnSet, g, qb, ref, mx, w, r, above, row, colScore, del0, base, best0,
                     scoreAry, dirRow, indexAry, oldIndexAry, j, indexUL,
                     scores, dirs, idx, oldIdx, nextSnp, del, best, bestStart);
      indexUL := indexUL + 1;
      j := j + 1;
    }
  }

  /** The last column of query row r: waterScanMaxEndRowScore, stored in the
    * row buffers, and kept with its start when it beats the best. */
  method MemEndCell(alnSet: AlnSet, ghost g: Params, qb: uchar, ref: seq<uchar>, ghost mx: seq<seq<Cell>>,
                    ghost w: nat, ghost r: nat, ghost above: seq<Cell>, ghost row: seq<Cell>, ghost del0: int,
                    scoreAry: array<int>, dirRow: array<int>, indexAry: array<int>, oldIndexAry: array<int>,
                    indexUL: int, ghost scores: seq<int>, ghost dirs: seq<int>, ghost idx: seq<int>,
                    ghost oldIdx: seq<int>, nextSnp: int, del: int, best: Peak, bestStart: int)
      returns (best': Peak, bestStart': int)
    requires ParamsMatch(g, alnSet) && |ref| >= 1 && indexUL == r * w + |ref|
    requires MemReady(g, qb, ref, mx, w, r, above, row, del0, |ref|, scores, dirs, idx, oldIdx, nextSnp, del)
    requires Buffers(scoreAry, dirRow, indexAry, oldIndexAry, scores, dirs, idx, oldIdx)
    modifies scoreAry, dirRow, indexAry
    ensures Buffers(scoreAry, dirRow, indexAry, oldIndexAry, scores[|ref| := row[|ref|].score],
                    dirs[|ref| := row[|ref|].dir], idx[|ref| := StartOf(mx, w, r, |ref|)], oldIdx)
    ensures best' == if best.score < row[|ref|].score then Peak(row[|ref|].score, indexUL) else best
    ensures bestStart' == if best.score < row[|ref|].score then StartOf(mx, w, r, |ref|) else bestStart
  {
    var lenRef := |ref|;
    var baseScore := alnSet.GetBaseScore(qb, ref[lenRef - 1]);
    ScanCellStep(g, qb, ref, mx, w, r, above, row, del0, lenRef, scores, dirs, idx, oldIdx, nextSnp, del,
                 baseScore, indexUL);
    var c := WaterScanMaxEndRowScore(alnSet.settings.bestDir, baseScore, alnSet.settings.gapOpen,
                                     alnSet.settings.gapExtend, scoreAry[lenRef], dirRow[lenRef], nextSnp, del,
                                     oldIndexAry[lenRef - 1], oldIndexAry[lenRef], indexAry[lenRef - 1], indexUL);
    scoreAry[lenRef] := c.score;
    dirRow[lenRef] := c.dir;
    indexAry[lenRef] := c.pos;
    best', bestStart' := best, bestStart;
    if best.score < scoreAry[lenRef] {
      best' := Peak(scoreAry[lenRef], indexUL);
      bestStart' := indexAry[lenRef];
    }
  }

  /** Query row r is done: the buffers hold its scores, directions and
    * starts, and `best` is the best cell after `best0`, with its start. */
  ghost predicate MemRowDone(mx: seq<seq<Cell>>, w: nat, r: nat, best0: Peak,
                             scores: seq<int>, dirs: seq<int>, idx: seq<int>, best: Peak, bestStart: int)
  {
    && 1 <= w && Rectangular(mx, w) && 1 <= r < |mx|
    && |scores| == w && |dirs| == w && |idx| == w
    && (forall k :: 0 <= k < w ==> scores[k] == mx[r][k].score && dirs[k] == mx[r][k].dir)
    && (forall k :: 0 <= k < w ==> idx[k] == StartOf(mx, w, r, k))
    && best == RowPeak(mx[r], r * w, w - 1, best0)
    && bestStart == StartAt(mx, w, best.index)
  }

  /** Writing the last column after the inner loop completes the row. */
  lemma MemEndValues(g: Params, qb: uchar, ref: seq<uchar>, mx: seq<seq<Cell>>, w: nat, r: nat,
                     above: seq<Cell>, row: seq<Cell>, colScore: int, del0: int, base: nat, best0: Peak,
                     scores: seq<int>, dirs: seq<int>, idx: seq<int>, oldIdx: seq<int>,
                     nextSnp: int, del: int, best: Peak, bestStart: int)
    requires |ref| >= 1
    requires MemInner(g, qb, ref, mx, w, r, above, row, colScore, del0, base, best0,
                      |ref|, scores, dirs, idx, oldIdx, nextSnp, del, best, bestStart)
    ensures MemRowDone(mx, w, r, best0, scores[|ref| := row[|ref|].score], dirs[|ref| := row[|ref|].dir],
                       idx[|ref| := StartOf(mx, w, r, |ref|)],
                       if best.score < row[|ref|].score then Peak(row[|ref|].score, base + |ref|) else best,
                       if best.score < row[|ref|].score then StartOf(mx, w, r, |ref|) else bestStart)
  {
    StartAtCell(mx, w, r, |ref|);
  }

  /** One query row: the inner loop, then the last column. */
  method MemScoreRow(alnSet: AlnSet, ghost g: Params, qb: uchar, ref: seq<uchar>, ghost mx: seq<seq<Cell>>,
                     ghost w: nat, ghost r: nat, ghost above: seq<Cell>, ghost row: seq<Cell>,
                     del0: int, ghost base: nat, best0: Peak, bestStart0: int,
                     scoreAry: array<int>, dirRow: array<int>, indexAry: array<int>, oldIndexAry: array<int>,
                     indexUL0: int, ghost scores0: seq<int>, ghost dirs0: seq<int>, ghost idx0: seq<int>,
                     ghost oldIdx: seq<int>, nextSnp0: int)
      returns (indexUL: int, ghost scores: seq<int>, ghost dirs: seq<int>, ghost idx: seq<int>,
               best: Peak, bestStart: int)
    requires ParamsMatch(g, alnSet) && |ref| >= 1 && indexUL0 == base + 1 && |scores0| >= 1
    requires MemInner(g, qb, ref, mx, w, r, above, row, scores0[0], del0, base, best0,
                      1, scores0, dirs0, idx0, oldIdx, nextSnp0, del0, best0, bestStart0)
    requires Buffers(scoreAry, dirRow, indexAry, oldIndexAry, scores0, dirs0, idx0, oldIdx)
    modifies scoreAry, dirRow, indexAry
    ensures indexUL == base + |ref| + 1
    ensures MemRowDone(mx, w, r, best0, scores, dirs, idx, best, bestStart)
    ensures Buffers(scoreAry, dirRow, indexAry, oldIndexAry, scores, dirs, idx, oldIdx)
  {
    var nextSnp, del;
    indexUL, scores, dirs, idx, nextSnp, del, best, bestStart :=
      MemRowInner(alnSet, g, qb, ref, mx, w, r, above, row, scores0[0], del0, base, best0, bestStart0,
                  scoreAry, dirRow, indexAry, oldIndexAry, indexUL0, scores0, dirs0, idx0, oldIdx, nextSnp0);
    MemInnerReady(g, qb, ref, mx, w, r, above, row, scores0[0], del0, base, best0,
                  |ref|, scores, dirs, idx, oldIdx, nextSnp, del, best, bestStart);
    MemEndValues(g, qb, ref, mx, w, r, above, row, scores0[0], del0, base, best0,
                 scores, dirs, idx, oldIdx, nextSnp, del, best, bestStart);
    best, bestStart := MemEndCell(alnSet, g, qb, ref, mx, w, r, above, row, del0,
                                  scoreAry, dirRow, indexAry, oldIndexAry, indexUL,
                                  scores, dirs, idx, oldIdx, nextSnp, del, best, bestStart);
    indexUL := indexUL + 1;
    scores := scores[|ref| := row[|ref|].score];
    dirs := dirs[|ref| := row[|ref|].dir];
    idx := idx[|ref| := StartOf(mx, w, r, |ref|)];
  }

  // ---------------------------------------------------------------------------
  // The row loop
  // ---------------------------------------------------------------------------

  /** The values the fill holds before query row i + 1 (matrix index base):
    * the scores and directions are row i's with column 0 replaced by row
    * i + 1's stop, the old starts are row i's and the current start of
    * column 0 is the cell's own index; nextSnp is row i's column-0 score, del
    * the deletion score for column 1, and `best` the best cell of rows
    * 1 .. i with its start. */
  ghost predicate MemRows(g: Params, ref: seq<uchar>, mx: seq<seq<Cell>>, w: nat, i: nat, base: nat,
                          scores: seq<int>, dirs: seq<int>, idx: seq<int>, oldIdx: seq<int>,
                          nextSnp: int, del: int, best: Peak, bestStart: int)
  {
    && w == |ref| + 1 && Rectangular(mx, w) && i < |mx| && base == (i + 1) * w
    && |scores| == w && |dirs| == w && |idx| == w && |oldIdx| == w
    && scores[0] == ColZeroScore(g, Local, i + 1) && dirs[0] == MvStop && idx[0] == base
    && (forall k :: 1 <= k < w ==> scores[k] == mx[i][k].score && dirs[k] == mx[i][k].dir)
    && (forall k :: 0 <= k < w ==> oldIdx[k] == StartOf(mx, w, i, k))
    && nextSnp == mx[i][0].score
    && del == DelZero(g, Local, i + 1)
    && best == MatrixPeak(mx, w, i)
    && bestStart == StartAt(mx, w, best.index)
  }

  /** The values before query row i + 1 are those its inner loop starts from. */
  lemma MemStartValues(g: Params, qry: seq<uchar>, ref: seq<uchar>, mx: seq<seq<Cell>>, w: nat, i: nat, base: nat,
                       scores: seq<int>, dirs: seq<int>, idx: seq<int>, oldIdx: seq<int>,
                       nextSnp: int, del: int, best: Peak, bestStart: int)
    requires IsTable(g.table) && IsIndexSeq(qry) && IsIndexSeq(ref) && |ref| >= 1
    requires MatrixFollows(g, Local, qry, ref, mx) && i < |qry|
    requires MemRows(g, ref, mx, w, i, base, scores, dirs, idx, oldIdx, nextSnp, del, best, bestStart)
    ensures MemInner(g, qry[i], ref, mx, w, i + 1, mx[i], mx[i + 1], scores[0], del, base, best,
                     1, scores, dirs, idx, oldIdx, nextSnp, del, best, bestStart)
  {
    LocalRowFollows(g, qry, ref, mx, i + 1);
  }

  /** Row i + 1 done and the next row's column 0 set up (its score and the
    * column-1 deletion score one gap extension `ge` lower, floored at 0, the
    * start rows swapped and the new current row's column 0 set to its own
    * index) moves the fill from row i to row i + 1. */
  lemma MemRowsNext(g: Params, qry: seq<uchar>, ref: seq<uchar>, mx: seq<seq<Cell>>, w: nat, i: nat, base: nat,
                    scores: seq<int>, dirs: seq<int>, idx: seq<int>, oldIdx: seq<int>,
                    nextSnp: int, del: int, best: Peak, bestStart: int,
                    rowScores: seq<int>, rowDirs: seq<int>, rowIdx: seq<int>, rowBest: Peak, rowStart: int, ge: int,
                    base': nat)
    requires IsTable(g.table) && IsIndexSeq(qry) && IsIndexSeq(ref) && |ref| >= 1
    requires MatrixFollows(g, Local, qry, ref, mx) && i < |qry|
    requires MemRows(g, ref, mx, w, i, base, scores, dirs, idx, oldIdx, nextSnp, del, best, bestStart)
    requires MemRowDone(mx, w, i + 1, best, rowScores, rowDirs, rowIdx, rowBest, rowStart)
    requires rowScores[0] == ColZeroScore(g, Local, i + 1)
    requires ge == g.gapExtend && base' == base + w
    ensures MemRows(g, ref, mx, w, i + 1, base', rowScores[0 := Clamp(rowScores[0] + ge)], rowDirs[0 := MvStop],
                    oldIdx[0 := base'], rowIdx, rowScores[0],
                    Clamp(Clamp(rowScores[0] + ge) + ge), rowBest, rowStart)
  {
    LocalColZero(g, qry, ref, mx, i + 1);
  }

  /** Column 0 of the next query row: nextSnp takes the old column-0 score,
    * the direction is a stop, the column-0 score and the column-1 deletion
    * score are each one gap extension lower, floored at 0; the start rows are
    * swapped and the new current row's column 0 gets the cell's index (the
    * swapped-in row's column 0 is otherwise left from two rows before). */
  method MemColZero(gapExtend: int, scoreAry: array<int>, dirRow: array<int>, indexAry: array<int>,
                    oldIndexAry: array<int>, indexUL: int, ghost scores: seq<int>, ghost dirs: seq<int>,
                    ghost idx: seq<int>, ghost oldIdx: seq<int>)
      returns (nextSnp: int, del: int, curIndexAry: array<int>, lastIndexAry: array<int>)
    requires Buffers(scoreAry, dirRow, indexAry, oldIndexAry, scores, dirs, idx, oldIdx)
    requires |scores| >= 1 && |dirs| >= 1 && |oldIdx| >= 1
    modifies scoreAry, dirRow, oldIndexAry
    ensures curIndexAry == oldIndexAry && lastIndexAry == indexAry
    ensures Buffers(scoreAry, dirRow, curIndexAry, lastIndexAry, scores[0 := Clamp(scores[0] + gapExtend)],
                    dirs[0 := MvStop], oldIdx[0 := indexUL], idx)
    ensures nextSnp == scores[0]
    ensures del == Clamp(Clamp(scores[0] + gapExtend) + gapExtend)
  {
    nextSnp := scoreAry[0];
    dirRow[0] := MvStop;
    // `x &= -(x > 0)` keeps a positive x and clears any other
    var colScore := scoreAry[0] + gapExtend;
    if colScore <= 0 {
      colScore := 0;
    }
    scoreAry[0] := colScore;
    del := scoreAry[0] + gapExtend;
    if del <= 0 {
      del := 0;
    }
    curIndexAry, lastIndexAry := oldIndexAry, indexAry;
    curIndexAry[0] := indexUL;
  }

  /** One pass of the row loop: fills query row i + 1, keeps its best cell
    * with its start, and sets up column 0 of the next row. */
  method MemNextRow(alnSet: AlnSet, ghost g: Params, qry: seq<uchar>, ref: seq<uchar>, ghost mx: seq<seq<Cell>>,
                    ghost w: nat, scoreAry: array<int>, dirRow: array<int>, indexAry: array<int>,
                    oldIndexAry: array<int>, i: nat, indexUL: int, ghost base: nat,
                    ghost scores: seq<int>, ghost dirs: seq<int>, ghost idx: seq<int>, ghost oldIdx: seq<int>,
                    nextSnp: int, del: int, best: Peak, bestStart: int)
      returns (curIndexAry: array<int>, lastIndexAry: array<int>, indexUL': int, ghost base': nat,
               ghost scores': seq<int>, ghost dirs': seq<int>, ghost idx': seq<int>, ghost oldIdx': seq<int>,
               nextSnp': int, del': int, best': Peak, bestStart': int)
    requires ParamsMatch(g, alnSet)
    requires IsIndexSeq(qry) && IsIndexSeq(ref) && |ref| >= 1
    requires MatrixFollows(g, Local, qry, ref, mx) && i < |qry| && indexUL == base + 1
    requires MemRows(g, ref, mx, w, i, base, scores, dirs, idx, oldIdx, nextSnp, del, best, bestStart)
    requires Buffers(scoreAry, dirRow, indexAry, oldIndexAry, scores, dirs, idx, oldIdx)
    modifies scoreAry, dirRow, indexAry, oldIndexAry
    ensures ParamsMatch(g, alnSet)
    ensures curIndexAry == oldIndexAry && lastIndexAry == indexAry && indexUL' == base' + 1
    ensures MemRows(g, ref, mx, w, i + 1, base', scores', dirs', idx', oldIdx', nextSnp', del', best', bestStart')
    ensures Buffers(scoreAry, dirRow, curIndexAry, lastIndexAry, scores', dirs', idx', oldIdx')
  {
    MemStartValues(g, qry, ref, mx, w, i, base, scores, dirs, idx, oldIdx, nextSnp, del, best, bestStart);
    var gapExtend := alnSet.settings.gapExtend;
    ghost var rowScores, rowDirs, rowIdx;
    var rowIndexUL;
    rowIndexUL, rowScores, rowDirs, rowIdx, best', bestStart' :=
      MemScoreRow(alnSet, g, qry[i], ref, mx, w, i + 1, mx[i], mx[i + 1], del, base, best, bestStart,
                  scoreAry, dirRow, indexAry, oldIndexAry, indexUL, scores, dirs, idx, oldIdx, nextSnp);
    base' := base + w;
    nextSnp', del', curIndexAry, lastIndexAry :=
      MemColZero(gapExtend, scoreAry, dirRow, indexAry, oldIndexAry, rowIndexUL, rowScores, rowDirs, rowIdx, oldIdx);
    scores' := rowScores[0 := Clamp(rowScores[0] + gapExtend)];
    dirs' := rowDirs[0 := MvStop];
    idx' := oldIdx[0 := base'];
    oldIdx' := rowIdx;
    MemRowsNext(g, qry, ref, mx, w, i, base, scores, dirs, idx, oldIdx, nextSnp, del, best, bestStart,
                rowScores, rowDirs, rowIdx, best', bestStart', gapExtend, base');
    indexUL' := rowIndexUL + 1;
  }

  /** Query rows 1 .. |qry|, one MemNextRow each; the start rows trade places
    * after every row. */
  method MemFillRows(alnSet: AlnSet, ghost g: Params, qry: seq<uchar>, ref: seq<uchar>, ghost mx: seq<seq<Cell>>,
                     ghost w: nat, scoreAry: array<int>, dirRow: array<int>, indexAry0: array<int>,
                     oldIndexAry0: array<int>, indexUL0: int, ghost scores0: seq<int>, ghost dirs0: seq<int>,
                     ghost idx0: seq<int>, ghost oldIdx0: seq<int>, nextSnp0: int, del0: int,
                     best0: Peak, bestStart0: int)
      returns (best: Peak, bestStart: int)
    requires ParamsMatch(g, alnSet)
    requires IsIndexSeq(qry) && IsIndexSeq(ref) && |ref| >= 1
    requires MatrixFollows(g, Local, qry, ref, mx) && indexUL0 == w + 1
    requires MemRows(g, ref, mx, w, 0, w, scores0, dirs0, idx0, oldIdx0, nextSnp0, del0, best0, bestStart0)
    requires Buffers(scoreAry, dirRow, indexAry0, oldIndexAry0, scores0, dirs0, idx0, oldIdx0)
    modifies scoreAry, dirRow, indexAry0, oldIndexAry0
    ensures best == MatrixPeak(mx, w, |qry|) && bestStart == StartAt(mx, w, best.index)
  {
    var indexAry, oldIndexAry := indexAry0, oldIndexAry0;
    var indexUL := indexUL0;
    ghost var base := w;
    ghost var scores, dirs, idx, oldIdx := scores0, dirs0, idx0, oldIdx0;
    var nextSnp, del := nextSnp0, del0;
    best, bestStart := best0, bestStart0;
    var i := 0;
    while i < |qry|
      invariant i <= |qry|
      invariant ParamsMatch(g, alnSet)
      invariant (indexAry == indexAry0 && oldIndexAry == oldIndexAry0)
                || (indexAry == oldIndexAry0 && oldIndexAry == indexAry0)
      invariant indexUL == base + 1
      invariant MemRows(g, ref, mx, w, i, base, scores, dirs, idx, oldIdx, nextSnp, del, best, bestStart)
      invariant Buffers(scoreAry, dirRow, indexAry, oldIndexAry, scores, dirs, idx, oldIdx)
    {
      indexAry, oldIndexAry, indexUL, base, scores, dirs, idx, oldIdx, nextSnp, del, best, bestStart :=
        MemNextRow(alnSet, g, qry, ref, mx, w, scoreAry, dirRow, indexAry, oldIndexAry, i, indexUL, base,
                   scores, dirs, idx, oldIdx, nextSnp, del, best, bestStart);
      i := i + 1;
    }
  }

  // ---------------------------------------------------------------------------
  // Set up and the whole alignment
  // ---------------------------------------------------------------------------

  /** The first-row loop: every direction a stop, every start its own column
    * (the gap row's cells start where they are), every score 0. */
  method MemInitRows(dirRow: array<int>, indexAry: array<int>, scoreAry: array<int>, lenRef: nat)
    requires dirRow.Length == lenRef + 1 && indexAry.Length == lenRef + 1 && scoreAry.Length == lenRef + 1
    requires dirRow != indexAry && dirRow != scoreAry && indexAry != scoreAry
    modifies dirRow, indexAry, scoreAry
    ensures forall k :: 0 <= k <= lenRef ==> dirRow[k] == MvStop && indexAry[k] == k && scoreAry[k] == 0
  {
    var indexUL := 0;
    while indexUL <= lenRef
      invariant indexUL <= lenRef + 1
      invariant forall k :: 0 <= k < indexUL ==> dirRow[k] == MvStop && indexAry[k] == k && scoreAry[k] == 0
    {
      dirRow[indexUL] := MvStop;
      indexAry[indexUL] := indexUL;
      scoreAry[indexUL] := 0;
      indexUL := indexUL + 1;
    }
  }

  /** The values before query row 1: the gap row scores 0 and is all stops,
    * each of its cells starts where it is, and column 0 of row 1 starts at
    * its own index w; no cell has been kept. */
  lemma MemStart(g: Params, qry: seq<uchar>, ref: seq<uchar>, mx: seq<seq<Cell>>, w: nat,
                 scores: seq<int>, dirs: seq<int>, idx: seq<int>, oldIdx: seq<int>)
    requires IsTable(g.table) && IsIndexSeq(qry) && IsIndexSeq(ref) && w == |ref| + 1
    requires MatrixFollows(g, Local, qry, ref, mx)
    requires |scores| == w && |dirs| == w && |idx| == w && |oldIdx| == w && idx[0] == w
    requires forall k :: 0 <= k < w ==> dirs[k] == MvStop && oldIdx[k] == k && scores[k] == 0
    ensures MemRows(g, ref, mx, w, 0, w, scores, dirs, idx, oldIdx, 0, 0, Peak(0, 0), 0)
  {
    forall k | 0 <= k < w
      ensures mx[0][k].score == 0 && mx[0][k].dir == MvStop
    {
      LocalCellBounds(g, qry, ref, mx, 0, k);
    }
    StartAtCell(mx, w, 0, 0);
  }

  /** The fill of memWater on fresh row buffers: the first-row loop, the swap
    * of the start rows, column 0 of row 1, then every query row. Returns the
    * best cell (the first maximum of the row-major scan) and its start. */
  method MemFill(alnSet: AlnSet, ghost g: Params, qry: seq<uchar>, ref: seq<uchar>, ghost mx: seq<seq<Cell>>)
      returns (best: Peak, bestStart: int)
    requires ParamsMatch(g, alnSet)
    requires IsIndexSeq(qry) && IsIndexSeq(ref) && |ref| >= 1
    requires MatrixFollows(g, Local, qry, ref, mx)
    ensures best == MatrixPeak(mx, |ref| + 1, |qry|) && bestStart == StartAt(mx, |ref| + 1, best.index)
  {
    var lenRef := |ref|;
    var dirRow := new int[lenRef + 1];
    var scoreAry := new int[lenRef + 1];
    var indexAry := new int[lenRef + 1];
    var oldIndexAry := new int[lenRef + 1];
    MemInitRows(dirRow, indexAry, scoreAry, lenRef);
    indexAry, oldIndexAry := oldIndexAry, indexAry;
    var nextSnp := scoreAry[0];
    var indexUL := lenRef + 1;
    indexAry[0] := indexUL;
    dirRow[0] := MvStop;
    indexUL := indexUL + 1;
    MemStart(g, qry, ref, mx, lenRef + 1, scoreAry[..], dirRow[..], indexAry[..], oldIndexAry[..]);
    best, bestStart := MemFillRows(alnSet, g, qry, ref, mx, lenRef + 1, scoreAry, dirRow, indexAry, oldIndexAry,
                                   indexUL, scoreAry[..], dirRow[..], indexAry[..], oldIndexAry[..],
                                   nextSnp, 0, Peak(0, 0), 0);
  }

  /** The alnMatrix that memWater hands back: no direction matrix, the
    * lengths and offsets of the aligned parts, and the best score with the
    * indexes of its start and end cells. */
  method MemMatrixOf(lenRef: nat, refOffset: nat, lenQry: nat, qryOffset: nat, best: Peak, bestStart: int)
      returns (m: AlnMatrix)
    ensures fresh(m) && m.dirMatrix == null
    ensures m.lenRef == lenRef && m.refOffset == refOffset
    ensures m.lenQry == lenQry && m.qryOffset == qryOffset
    ensures Peak(m.bestScore, m.bestEndIndex) == best && m.bestStartIndex == bestStart
    ensures m.lenArrays == 0 && m.scoreAry == null && m.startIndexAry == null && m.endIndexAry == null
  {
    m := new AlnMatrix();
    m.lenRef := lenRef;
    m.refOffset := refOffset;
    m.lenQry := lenQry;
    m.qryOffset := qryOffset;
    m.bestScore := best.score;
    m.bestStartIndex := bestStart;
    m.bestEndIndex := best.index;
  }

  /** memWater: a Smith-Waterman alignment of the query bases
    * qrySeq[qryOffset..qryEnd] against the reference bases
    * refSeq[refOffset..refEnd] (both inclusive, already lookup indexes) in
    * memory linear in the reference length. Returns null when an allocation
    * fails (`allocFails`); otherwise a matrix without directions whose best
    * score and end index are the first maximum of the row-major scan of the
    * local recurrence (`mx`, which by MatrixFollowsUnique is Matrix) and
    * whose start index is where the traceback from that cell stops. */
  method MemWaterAln(qrySeq: seq<uchar>, qryOffset: nat, qryEnd: nat,
                     refSeq: seq<uchar>, refOffset: nat, refEnd: nat,
                     alnSet: AlnSet, allocFails: bool) returns (m: AlnMatrix?, ghost mx: seq<seq<Cell>>)
    requires qryOffset <= qryEnd < |qrySeq| && refOffset <= refEnd < |refSeq|
    requires IsIndexSeq(qrySeq) && IsIndexSeq(refSeq)
    requires alnSet.Valid()
    ensures allocFails <==> m == null
    ensures m != null ==>
              && fresh(m)
              && MatrixFollows(ParamsOf(alnSet), Local, qrySeq[qryOffset..qryEnd + 1], refSeq[refOffset..refEnd + 1], mx)
              && m.lenRef == refEnd - refOffset + 1 && m.refOffset == refOffset
              && m.lenQry == qryEnd - qryOffset + 1 && m.qryOffset == qryOffset
              && Rectangular(mx, m.lenRef + 1) && m.lenQry < |mx|
              && Peak(m.bestScore, m.bestEndIndex) == MatrixPeak(mx, m.lenRef + 1, m.lenQry)
              && m.bestStartIndex == StartAt(mx, m.lenRef + 1, m.bestEndIndex)
              && m.dirMatrix == null && m.lenArrays == 0
              && m.scoreAry == null && m.startIndexAry == null && m.endIndexAry == null
  {
    var qry := qrySeq[qryOffset..qryEnd + 1];
    var ref := refSeq[refOffset..refEnd + 1];
    ghost var g := ParamsOf(alnSet);
    ParamsOfMatches(alnSet);
    mx := RecurrenceMatrix(g, Local, qry, ref);
    if allocFails {
      return null, mx;
    }
    var best, bestStart := MemFill(alnSet, g, qry, ref, mx);
    m := MemMatrixOf(|ref|, refOffset, |qry|, qryOffset, best, bestStart);
  }

  // ---------------------------------------------------------------------------
  // The start of column 0, as written
  // ---------------------------------------------------------------------------

  /** The start memWater.h leaves in column 0 of query row i >= 1: the code
    * sets indexAryUL[0] once, before row 1, and only swaps the two start rows
    * after that, so the row used for odd rows holds w and the one used for
    * even rows keeps the 0 of the first-row loop. */
  function ColZeroStartAsWritten(i: nat, w: nat): (r: int)
    requires i >= 1
    ensures i % 2 == 1 ==> r == w
    ensures i % 2 == 0 ==> r == 0
  {
    if i % 2 == 1 then w else 0
  }

  /** The start rows of memWater as written, column 0 only: the first-row
    * loop, the swap, the one store of indexUL into column 0, then a swap
    * after every query row. Returns the column-0 start each row uses. */
  method IndexRowsAsWritten(lenRef: nat, lenQry: nat) returns (col0: seq<int>)
    ensures |col0| == lenQry
    ensures forall i :: 0 <= i < lenQry ==> col0[i] == ColZeroStartAsWritten(i + 1, lenRef + 1)
  {
    var indexAry := new int[lenRef + 1];
    var oldIndexAry := new int[lenRef + 1];
    var k := 0;
    while k <= lenRef
      invariant k <= lenRef + 1
      invariant forall c :: 0 <= c < k ==> indexAry[c] == c
    {
      indexAry[k] := k;
      k := k + 1;
    }
    indexAry, oldIndexAry := oldIndexAry, indexAry;
    indexAry[0] := lenRef + 1;
    col0 := [];
    var q := 0;
    while q < lenQry
      invariant q <= lenQry && |col0| == q
      invariant forall i :: 0 <= i < q ==> col0[i] == ColZeroStartAsWritten(i + 1, lenRef + 1)
      invariant indexAry != oldIndexAry && indexAry.Length == lenRef + 1 && oldIndexAry.Length == lenRef + 1
      invariant indexAry[0] == ColZeroStartAsWritten(q + 1, lenRef + 1)
      invariant oldIndexAry[0] == ColZeroStartAsWritten(q + 2, lenRef + 1)
    {
      col0 := col0 + [indexAry[0]];
      indexAry, oldIndexAry := oldIndexAry, indexAry;
      q := q + 1;
    }
  }

  /** Counterexample: query GGA against reference A with a positive match, so
    * cell (3, 1) is a positive match off the stop in column 0 of row 2. Its
    * alignment starts at that stop, index 2 * w, but as written row 2's
    * column 0 holds 0, which waterScanMaxScore copies into cell (3, 1). */
  lemma StaleColZeroStart(mx: seq<seq<Cell>>, w: nat)
    requires Rectangular(mx, w) && |mx| >= 4 && w >= 2
    requires mx[3][1].score > 0 && mx[3][1].dir == MvSnp
    ensures StartOf(mx, w, 3, 1) == 2 * w
    ensures PosOf(mx[3][1].dir, ColZeroStartAsWritten(2, w), 0, 0) == 0 != StartOf(mx, w, 3, 1)
  {
  }
}
