/** The recurrence the dynamic-programming fills compute, as pure functions over
  * whole rows. A matrix has lenRef + 1 columns (column 0 is the gap column) and
  * one row per query base below the gap row 0.
  *
  * Global mode is the fill of needleman/needleman.h: row 0 is a stop followed
  * by deletions, column 0 is insertions, and every other cell is the best move
  * (under the preference order) over the diagonal, the cell above and the cell
  * to the left, with affine gap scores.
  *
  * Local mode is the fill of waterman/waterTwoBit.h and memWater/memWater.h:
  * row 0 and column 0 are stops, column 0 scores and the first deletion score
  * of a row are clamped at 0, and every other cell is the global cell with the
  * zero floor of genWater.h applied.
  *
  * Two forms are given: the recursive Row/Matrix, and the row-at-a-time
  * predicates RowFollows/MatrixFollows that the fills are proved against.
  * MatrixFollowsRows and MatrixFollowsUnique show they define the same matrix. */
module AlnRecurrence {
  import opened DataTypeShortHand
  import opened GenAln
  import opened GenWater
  import opened AlnSetStruct
  import opened AlnMatrixStruct

  /** The scoring a fill reads from an alnSet: the direction preference
    * (bestDirC), gapOpenC, gapExtendC and the score matrix. */
  datatype Params = Params(pref: Pref, gapOpen: int, gapExtend: int, table: seq<seq<int>>)

  predicate IsTable(t: seq<seq<int>>) {
    |t| == MatrixCol && forall i :: 0 <= i < MatrixCol ==> |t[i]| == MatrixCol
  }

  /** A sequence already converted to lookup indexes. */
  predicate IsIndexSeq(s: seq<uchar>) {
    forall i :: 0 <= i < |s| ==> s[i] as int < MatrixCol
  }

  /** The parameters of an alnSet. */
  function ParamsOf(alnSet: AlnSet): (g: Params)
    reads alnSet, alnSet.scoreMatrix
    requires alnSet.Valid()
    ensures IsTable(g.table)
  {
    Params(alnSet.settings.bestDir, alnSet.settings.gapOpen, alnSet.settings.gapExtend, alnSet.ScoreRows())
  }

  /** `g` holds the scoring of the alnSet. */
  ghost predicate ParamsMatch(g: Params, alnSet: AlnSet)
    reads alnSet, alnSet.scoreMatrix
  {
    && alnSet.Valid() && IsTable(g.table)
    && g.pref == alnSet.settings.bestDir
    && g.gapOpen == alnSet.settings.gapOpen && g.gapExtend == alnSet.settings.gapExtend
    && forall a, b :: 0 <= a < MatrixCol && 0 <= b < MatrixCol ==> g.table[a][b] == alnSet.scoreMatrix[a, b]
  }

  lemma ParamsOfMatches(alnSet: AlnSet)
    requires alnSet.Valid()
    ensures ParamsMatch(ParamsOf(alnSet), alnSet)
  {
  }

  datatype Mode = Global | Local

  /** `x &= -(x > 0)`: a non-positive value becomes 0. */
  function Clamp(x: int): (r: int)
    ensures r >= 0 && (x > 0 ==> r == x) && (x <= 0 ==> r == 0)
  {
    if x > 0 then x else 0
  }

  /** Row 0: in global mode a stop, then deletions scoring gapOpen,
    * gapOpen + gapExtend, ...; in local mode stops scoring 0. */
  function RowZero(g: Params, mode: Mode, lenRef: nat): (row: seq<Cell>)
    ensures |row| == lenRef + 1
  {
    seq(lenRef + 1, j => if mode == Local || j == 0 then Cell(0, MvStop)
                         else Cell(g.gapOpen + (j - 1) * g.gapExtend, MvDel))
  }

  /** The column-0 score of row i >= 1: gapOpen + (i - 1) * gapExtend in global
    * mode; in local mode 0 in row 1, then the previous one plus gapExtend,
    * clamped at 0. */
  function ColZeroScore(g: Params, mode: Mode, i: nat): int
    requires i >= 1
  {
    match mode
    case Global => g.gapOpen + (i - 1) * g.gapExtend
    case Local => if i == 1 then 0 else Clamp(ColZeroScore(g, mode, i - 1) + g.gapExtend)
  }

  /** Cell (i, 0): an insertion in global mode, a stop in local mode. */
  function ColZero(g: Params, mode: Mode, i: nat): Cell
    requires i >= 1
  {
    Cell(ColZeroScore(g, mode, i), if mode == Global then MvIns else MvStop)
  }

  /** The deletion score the fill holds for column 1 of row i >= 1: the column-0
    * score plus gapExtend in global mode; in local mode 0 in row 1 (delScoreL
    * starts at 0) and that sum clamped at 0 in later rows. */
  function DelZero(g: Params, mode: Mode, i: nat): int
    requires i >= 1
  {
    match mode
    case Global => ColZeroScore(g, mode, i) + g.gapExtend
    case Local => if i == 1 then 0 else Clamp(ColZeroScore(g, mode, i) + g.gapExtend)
  }

  /** The local mode floors the chosen cell. */
  function CellRule(mode: Mode, c: Cell): Cell {
    if mode == Local then Floor(c) else c
  }

  /** The cell rule for column j >= 1 of a row, from the cell to its left in
    * `row` (or the row's first deletion score `del0` in column 1) and the two
    * cells of the row above. */
  function NextCell(g: Params, mode: Mode, qb: uchar, ref: seq<uchar>, above: seq<Cell>,
                    row: seq<Cell>, del0: int, j: nat): Cell
    requires IsTable(g.table) && qb as int < MatrixCol && IsIndexSeq(ref)
    requires |above| == |ref| + 1 && 1 <= j <= |ref| && j <= |row|
  {
    CellRule(mode, Best(g.pref,
                        above[j - 1].score + g.table[qb][ref[j - 1]],
                        IndelScore(above[j].score, above[j].dir, g.gapOpen, g.gapExtend),
                        if j == 1 then del0 else IndelScore(row[j - 1].score, row[j - 1].dir, g.gapOpen, g.gapExtend)))
  }

  /** Cells 0..j of the row for query base `qb`, given the row above. */
  function RowCells(g: Params, mode: Mode, qb: uchar, ref: seq<uchar>, above: seq<Cell>,
                    colZero: Cell, del0: int, j: nat): (row: seq<Cell>)
    requires IsTable(g.table) && qb as int < MatrixCol && IsIndexSeq(ref)
    requires |above| == |ref| + 1 && j <= |ref|
    ensures |row| == j + 1
  {
    if j == 0 then [colZero]
    else
      var left := RowCells(g, mode, qb, ref, above, colZero, del0, j - 1);
      left + [NextCell(g, mode, qb, ref, above, left, del0, j)]
  }

  /** Row i of the matrix: row 0, or the cells for query base i - 1. */
  function Row(g: Params, mode: Mode, qry: seq<uchar>, ref: seq<uchar>, i: nat): (row: seq<Cell>)
    requires IsTable(g.table) && IsIndexSeq(qry) && IsIndexSeq(ref) && i <= |qry|
    ensures |row| == |ref| + 1
  {
    if i == 0 then RowZero(g, mode, |ref|)
    else RowCells(g, mode, qry[i - 1], ref, Row(g, mode, qry, ref, i - 1),
                  ColZero(g, mode, i), DelZero(g, mode, i), |ref|)
  }

  /** All rows of the matrix. */
  function Matrix(g: Params, mode: Mode, qry: seq<uchar>, ref: seq<uchar>): (mx: seq<seq<Cell>>)
    requires IsTable(g.table) && IsIndexSeq(qry) && IsIndexSeq(ref)
    ensures |mx| == |qry| + 1
    ensures forall i :: 0 <= i <= |qry| ==> mx[i] == Row(g, mode, qry, ref, i)
  {
    seq(|qry| + 1, i requires 0 <= i <= |qry| => Row(g, mode, qry, ref, i))
  }

  predicate Rectangular(mx: seq<seq<Cell>>, w: nat) {
    forall i :: 0 <= i < |mx| ==> |mx[i]| == w
  }

  /** A prefix computed for a later column keeps the earlier cells. */
  lemma {:induction false} RowCellsPrefix(g: Params, mode: Mode, qb: uchar, ref: seq<uchar>, above: seq<Cell>,
                                          colZero: Cell, del0: int, j: nat, k: nat)
    requires IsTable(g.table) && qb as int < MatrixCol && IsIndexSeq(ref)
    requires |above| == |ref| + 1 && k <= j <= |ref|
    ensures RowCells(g, mode, qb, ref, above, colZero, del0, j)[..k + 1]
         == RowCells(g, mode, qb, ref, above, colZero, del0, k)
    decreases j
  {
    if j > k {
      RowCellsPrefix(g, mode, qb, ref, above, colZero, del0, j - 1, k);
    }
  }

  /** Cell j >= 1 of any computed prefix of a row follows the cell rule. */
  lemma RowCellRule(g: Params, mode: Mode, qb: uchar, ref: seq<uchar>, above: seq<Cell>,
                    colZero: Cell, del0: int, j: nat, k: nat)
    requires IsTable(g.table) && qb as int < MatrixCol && IsIndexSeq(ref)
    requires |above| == |ref| + 1 && 1 <= j <= k <= |ref|
    ensures var row := RowCells(g, mode, qb, ref, above, colZero, del0, k);
            row[j] == NextCell(g, mode, qb, ref, above, row, del0, j)
  {
    var row := RowCells(g, mode, qb, ref, above, colZero, del0, k);
    var rc := RowCells(g, mode, qb, ref, above, colZero, del0, j);
    RowCellsPrefix(g, mode, qb, ref, above, colZero, del0, k, j);
    assert row[j] == rc[j] && row[j - 1] == rc[j - 1];
  }

  /** `row` starts with `colZero` and every later cell follows the cell rule
    * from its left neighbour and the row above. */
  ghost predicate RowFollows(g: Params, mode: Mode, qb: uchar, ref: seq<uchar>, above: seq<Cell>,
                             colZero: Cell, del0: int, row: seq<Cell>)
    requires IsTable(g.table) && qb as int < MatrixCol && IsIndexSeq(ref)
    requires |above| == |ref| + 1
  {
    && |row| == |ref| + 1
    && row[0] == colZero
    && forall j {:trigger NextCell(g, mode, qb, ref, above, row, del0, j)} ::
         1 <= j <= |ref| ==> row[j] == NextCell(g, mode, qb, ref, above, row, del0, j)
  }

  /** The recursive row is the one that follows the cell rule. */
  lemma RowCellsFollow(g: Params, mode: Mode, qb: uchar, ref: seq<uchar>, above: seq<Cell>,
                       colZero: Cell, del0: int)
    requires IsTable(g.table) && qb as int < MatrixCol && IsIndexSeq(ref)
    requires |above| == |ref| + 1
    ensures RowFollows(g, mode, qb, ref, above, colZero, del0,
                       RowCells(g, mode, qb, ref, above, colZero, del0, |ref|))
  {
    var row := RowCells(g, mode, qb, ref, above, colZero, del0, |ref|);
    RowCellsPrefix(g, mode, qb, ref, above, colZero, del0, |ref|, 0);
    assert row[0] == RowCells(g, mode, qb, ref, above, colZero, del0, 0)[0];
    forall j | 1 <= j <= |ref|
      ensures row[j] == NextCell(g, mode, qb, ref, above, row, del0, j)
    {
      RowCellRule(g, mode, qb, ref, above, colZero, del0, j, |ref|);
    }
  }

  /** Row i >= 1 of `mx` is the row for query base i - 1 under row i - 1. */
  ghost predicate StepFollows(g: Params, mode: Mode, qry: seq<uchar>, ref: seq<uchar>,
                              mx: seq<seq<Cell>>, i: nat)
    requires IsTable(g.table) && IsIndexSeq(qry) && IsIndexSeq(ref)
    requires Rectangular(mx, |ref| + 1) && 1 <= i < |mx| && |mx| == |qry| + 1
  {
    RowFollows(g, mode, qry[i - 1], ref, mx[i - 1], ColZero(g, mode, i), DelZero(g, mode, i), mx[i])
  }

  /** `mx` is a matrix of the recurrence, stated one row at a time. */
  ghost predicate MatrixFollows(g: Params, mode: Mode, qry: seq<uchar>, ref: seq<uchar>, mx: seq<seq<Cell>>)
    requires IsTable(g.table) && IsIndexSeq(qry) && IsIndexSeq(ref)
  {
    && |mx| == |qry| + 1 && Rectangular(mx, |ref| + 1)
    && mx[0] == RowZero(g, mode, |ref|)
    && forall i {:trigger StepFollows(g, mode, qry, ref, mx, i)} ::
         1 <= i <= |qry| ==> StepFollows(g, mode, qry, ref, mx, i)
  }

  /** The recursive matrix is one. */
  lemma MatrixFollowsRows(g: Params, mode: Mode, qry: seq<uchar>, ref: seq<uchar>)
    requires IsTable(g.table) && IsIndexSeq(qry) && IsIndexSeq(ref)
    ensures MatrixFollows(g, mode, qry, ref, Matrix(g, mode, qry, ref))
  {
    var mx := Matrix(g, mode, qry, ref);
    forall i | 1 <= i <= |qry|
      ensures StepFollows(g, mode, qry, ref, mx, i)
    {
      RowCellsFollow(g, mode, qry[i - 1], ref, mx[i - 1], ColZero(g, mode, i), DelZero(g, mode, i));
    }
  }

  /** A matrix that follows the recurrence, without exposing its recursive
    * definition to the caller. */
  lemma RecurrenceMatrix(g: Params, mode: Mode, qry: seq<uchar>, ref: seq<uchar>) returns (mx: seq<seq<Cell>>)
    requires IsTable(g.table) && IsIndexSeq(qry) && IsIndexSeq(ref)
    ensures MatrixFollows(g, mode, qry, ref, mx)
  {
    mx := Matrix(g, mode, qry, ref);
    MatrixFollowsRows(g, mode, qry, ref);
  }

  /** Two rows that follow the cell rule from the same row above, column-0 cell
    * and first deletion score agree up to column j. */
  lemma {:induction false} RowFollowsPrefix(g: Params, mode: Mode, qb: uchar, ref: seq<uchar>, above: seq<Cell>,
                                            colZero: Cell, del0: int, r1: seq<Cell>, r2: seq<Cell>, j: nat)
    requires IsTable(g.table) && qb as int < MatrixCol && IsIndexSeq(ref)
    requires |above| == |ref| + 1 && j <= |ref|
    requires RowFollows(g, mode, qb, ref, above, colZero, del0, r1)
    requires RowFollows(g, mode, qb, ref, above, colZero, del0, r2)
    ensures r1[..j + 1] == r2[..j + 1]
  {
    if j > 0 {
      RowFollowsPrefix(g, mode, qb, ref, above, colZero, del0, r1, r2, j - 1);
      assert r1[j - 1] == r1[..j][j - 1] && r2[j - 1] == r2[..j][j - 1];
      assert r1[j] == NextCell(g, mode, qb, ref, above, r1, del0, j)
                   == NextCell(g, mode, qb, ref, above, r2, del0, j) == r2[j];
      assert r1[..j + 1] == r1[..j] + [r1[j]] && r2[..j + 1] == r2[..j] + [r2[j]];
    }
  }

  /** Two matrices that follow the recurrence agree in their first n + 1 rows. */
  lemma {:induction false} MatrixFollowsPrefix(g: Params, mode: Mode, qry: seq<uchar>, ref: seq<uchar>,
                                               m1: seq<seq<Cell>>, m2: seq<seq<Cell>>, n: nat)
    requires IsTable(g.table) && IsIndexSeq(qry) && IsIndexSeq(ref)
    requires MatrixFollows(g, mode, qry, ref, m1) && MatrixFollows(g, mode, qry, ref, m2) && n <= |qry|
    ensures m1[..n + 1] == m2[..n + 1]
  {
    if n > 0 {
      MatrixFollowsPrefix(g, mode, qry, ref, m1, m2, n - 1);
      assert m1[n - 1] == m1[..n][n - 1] && m2[n - 1] == m2[..n][n - 1];
      assert StepFollows(g, mode, qry, ref, m1, n) && StepFollows(g, mode, qry, ref, m2, n);
      RowFollowsPrefix(g, mode, qry[n - 1], ref, m1[n - 1], ColZero(g, mode, n), DelZero(g, mode, n),
                       m1[n], m2[n], |ref|);
      assert m1[n] == m1[n][..|ref| + 1] && m2[n] == m2[n][..|ref| + 1];
      assert m1[..n + 1] == m1[..n] + [m1[n]] && m2[..n + 1] == m2[..n] + [m2[n]];
    } else {
      assert m1[..1] == [m1[0]] && m2[..1] == [m2[0]];
    }
  }

  /** The recurrence fixes the matrix: any matrix that follows it is Matrix. */
  lemma MatrixFollowsUnique(g: Params, mode: Mode, qry: seq<uchar>, ref: seq<uchar>, mx: seq<seq<Cell>>)
    requires IsTable(g.table) && IsIndexSeq(qry) && IsIndexSeq(ref)
    requires MatrixFollows(g, mode, qry, ref, mx)
    ensures mx == Matrix(g, mode, qry, ref)
  {
    var rows := Matrix(g, mode, qry, ref);
    MatrixFollowsRows(g, mode, qry, ref);
    MatrixFollowsPrefix(g, mode, qry, ref, mx, rows, |qry|);
    assert mx == mx[..|qry| + 1] && rows == rows[..|qry| + 1];
  }

  // ---------------------------------------------------------------------------
  // A matrix stored row after row
  // ---------------------------------------------------------------------------

  /** The directions of a row. */
  function Dirs(row: seq<Cell>): (d: seq<int>)
    ensures |d| == |row| && forall k :: 0 <= k < |row| ==> d[k] == row[k].dir
  {
    seq(|row|, k requires 0 <= k < |row| => row[k].dir)
  }

  /** The directions of rows 0 .. n - 1 of a matrix stored row after row in one
    * flat sequence. */
  function Flatten(mx: seq<seq<Cell>>, n: nat): seq<int>
    requires n <= |mx|
  {
    if n == 0 then [] else Flatten(mx, n - 1) + Dirs(mx[n - 1])
  }

  lemma {:induction false} FlattenLength(mx: seq<seq<Cell>>, w: nat, n: nat)
    requires Rectangular(mx, w) && n <= |mx|
    ensures |Flatten(mx, n)| == n * w
  {
    if n > 0 {
      FlattenLength(mx, w, n - 1);
      assert n * w == (n - 1) * w + w;
    }
  }

  /** Cell (i, j) of a rectangular matrix of width w is at index i * w + j of
    * the flat sequence. */
  lemma {:induction false} FlattenCell(mx: seq<seq<Cell>>, w: nat, n: nat, i: nat, j: nat)
    requires Rectangular(mx, w) && i < n <= |mx| && j < w
    ensures |Flatten(mx, n)| == n * w
    ensures i * w + j < n * w
    ensures Flatten(mx, n)[i * w + j] == mx[i][j].dir
  {
    FlattenLength(mx, w, n);
    FlattenLength(mx, w, n - 1);
    if i < n - 1 {
      FlattenCell(mx, w, n - 1, i, j);
    } else {
      assert i * w + j == |Flatten(mx, n - 1)| + j;
    }
    MulMono(i + 1, n, w);
    assert (i + 1) * w == i * w + w;
  }

  /** Another row fits after the first n of a rectangular matrix. */
  lemma RowFits(mx: seq<seq<Cell>>, w: nat, n: nat)
    requires Rectangular(mx, w) && n < |mx|
    ensures |Flatten(mx, n)| + w <= |mx| * w
  {
    FlattenLength(mx, w, n + 1);
    MulMono(n + 1, |mx|, w);
  }

  // ---------------------------------------------------------------------------
  // The best cell of a local fill
  // ---------------------------------------------------------------------------

  /** The best score seen so far and the matrix index of the cell that gave it
    * (bestScoreL and bestEndIndexUL). */
  datatype Peak = Peak(score: int, index: int)

  /** The scan over columns 1 .. j of `row`, whose column 0 is at matrix index
    * `rowBase`: a cell replaces the peak only when it scores strictly higher. */
  function RowPeak(row: seq<Cell>, rowBase: int, j: nat, p: Peak): Peak
    requires j < |row|
  {
    if j == 0 then p
    else
      var q := RowPeak(row, rowBase, j - 1, p);
      if q.score < row[j].score then Peak(row[j].score, rowBase + j) else q
  }

  /** The scan over the cells of rows 1 .. i outside column 0, row after row,
    * starting from score 0 at index 0. */
  function MatrixPeak(mx: seq<seq<Cell>>, w: nat, i: nat): Peak
    requires Rectangular(mx, w) && 1 <= w && i < |mx|
  {
    if i == 0 then Peak(0, 0) else RowPeak(mx[i], i * w, w - 1, MatrixPeak(mx, w, i - 1))
  }

  /** The row scan keeps the peak or moves it to the first cell of the row
    * that scores the row's maximum, when that beats the peak. */
  lemma {:induction false} RowPeakFirst(row: seq<Cell>, rowBase: int, j: nat, p: Peak)
    requires j < |row|
    ensures var q := RowPeak(row, rowBase, j, p);
            && q.score >= p.score
            && (forall c :: 1 <= c <= j ==> row[c].score <= q.score)
            && (q == p || exists c :: && 1 <= c <= j && q == Peak(row[c].score, rowBase + c)
                                        && p.score < q.score
                                        && forall c' :: 1 <= c' < c ==> row[c'].score < q.score)
  {
    if j > 0 {
      RowPeakFirst(row, rowBase, j - 1, p);
      var q := RowPeak(row, rowBase, j - 1, p);
      if q.score < row[j].score {
        assert forall c' :: 1 <= c' < j ==> row[c'].score < row[j].score;
      }
    }
  }

  /** The peak is the first maximum: it scores at least every scanned cell and
    * at least 0; a peak of 0 is the starting index 0; a positive peak is the
    * index r * w + c of a scanned cell that scores it, and every scanned cell
    * before that one in row-major order scores less. */
  lemma {:induction false} MatrixPeakFirst(mx: seq<seq<Cell>>, w: nat, i: nat)
    requires Rectangular(mx, w) && 1 <= w && i < |mx|
    ensures var p := MatrixPeak(mx, w, i);
            && p.score >= 0
            && (forall r, c :: 1 <= r <= i && 1 <= c < w ==> mx[r][c].score <= p.score)
            && (p.score == 0 ==> p.index == 0)
            && (p.score > 0 ==>
                  exists r, c :: && 1 <= r <= i && 1 <= c < w
                                 && p.index == r * w + c && mx[r][c].score == p.score
                                 && forall r', c' :: 1 <= r' <= i && 1 <= c' < w && (r' < r || (r' == r && c' < c))
                                                     ==> mx[r'][c'].score < p.score)
  {
    if i > 0 {
      MatrixPeakFirst(mx, w, i - 1);
      var p0 := MatrixPeak(mx, w, i - 1);
      var p := MatrixPeak(mx, w, i);
      RowPeakFirst(mx[i], i * w, w - 1, p0);
      assert forall c :: 1 <= c < w ==> mx[i][c].score <= p.score;
      if p == p0 {
        if p.score > 0 {
          var r, c :| && 1 <= r <= i - 1 && 1 <= c < w
                      && p.index == r * w + c && mx[r][c].score == p.score
                      && forall r', c' :: 1 <= r' <= i - 1 && 1 <= c' < w && (r' < r || (r' == r && c' < c))
                                          ==> mx[r'][c'].score < p.score;
          assert forall r', c' :: 1 <= r' <= i && 1 <= c' < w && (r' < r || (r' == r && c' < c))
                                  ==> mx[r'][c'].score < p.score;
        }
      } else {
        var c :| && 1 <= c <= w - 1 && p == Peak(mx[i][c].score, i * w + c)
                 && p0.score < p.score
                 && forall c' :: 1 <= c' < c ==> mx[i][c'].score < p.score;
        assert forall r', c' :: 1 <= r' <= i && 1 <= c' < w && (r' < i || (r' == i && c' < c))
                                ==> mx[r'][c'].score < p.score;
      }
    }
  }
}
