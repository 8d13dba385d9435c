// hirschberg/genScoreNoGapHirsch.h: the scoring passes of a Hirschberg
// alignment that charges gapOpen for every gap position (no gap extension).
// The forward pass leaves the last row of a linear-gap Needleman-Wunsch
// matrix in a score array, the reverse pass the same row for both sequences
// read backwards; each returns the row's gap-column score.
// positionSingleBaseNoGap places a lone base under the same scoring.

module HirschScore {
  import opened DataTypeShortHand
  import opened GenAln
  import opened AlnSetStruct
  import opened AlnStructs
  import opened AlnRecurrence
  import opened GenHirsch

  /** The sequence read backwards. */
  function Rev<T>(s: seq<T>): (r: seq<T>)
    ensures |r| == |s|
    ensures forall k :: 0 <= k < |s| ==> r[k] == s[|s| - 1 - k]
  {
    seq(|s|, k requires 0 <= k < |s| => s[|s| - 1 - k])
  }

  // ---------------------------------------------------------------------------
  // The linear-gap matrix
  // ---------------------------------------------------------------------------

  /** Cells 0..j of the row for query base `qb` below the row `above`:
    * cell 0 is `first` (the gap column) and cell j the best of a match/SNP
    * from above[j - 1], an insertion from above[j] and a deletion from cell
    * j - 1, each gap costing gapOpen. */
  function NoGapCells(g: Params, qb: uchar, ref: seq<uchar>, above: seq<int>, first: int, j: nat): (row: seq<int>)
    requires IsTable(g.table) && qb as int < MatrixCol && IsIndexSeq(ref)
    requires |above| == |ref| + 1 && j <= |ref|
    ensures |row| == j + 1 && row[0] == first
  {
    if j == 0 then [first]
    else
      var left := NoGapCells(g, qb, ref, above, first, j - 1);
      left + [Max3(above[j - 1] + g.table[qb][ref[j - 1]], above[j] + g.gapOpen, left[j - 1] + g.gapOpen)]
  }

  /** The score of n gaps at `go` each. */
  function Gaps(n: nat, go: int): int
  {
    if n == 0 then 0 else Gaps(n - 1, go) + go
  }

  lemma {:induction false} GapsLinear(n: nat, go: int)
    ensures Gaps(n, go) == n * go
  {
    if n > 0 {
      GapsLinear(n - 1, go);
    }
  }

  /** Row i of the linear-gap matrix of qry against ref: row 0 is j gaps at
    * column j, and row i starts with i gaps. */
  function NoGapRow(g: Params, qry: seq<uchar>, ref: seq<uchar>, i: nat): (row: seq<int>)
    requires IsTable(g.table) && IsIndexSeq(qry) && IsIndexSeq(ref) && i <= |qry|
    ensures |row| == |ref| + 1 && row[0] == Gaps(i, g.gapOpen)
  {
    if i == 0 then seq(|ref| + 1, j requires 0 <= j => Gaps(j, g.gapOpen))
    else NoGapCells(g, qry[i - 1], ref, NoGapRow(g, qry, ref, i - 1), Gaps(i, g.gapOpen), |ref|)
  }

  /** Entry k of the forward row: the best score of qry against ref[..k]. */
  function ForRow(g: Params, ref: seq<uchar>, qry: seq<uchar>): (row: seq<int>)
    requires IsTable(g.table) && IsIndexSeq(qry) && IsIndexSeq(ref)
    ensures |row| == |ref| + 1
  {
    NoGapRow(g, qry, ref, |qry|)
  }

  /** Entry k of the reverse row: the best score of qry against ref[k..],
    * both read backwards. */
  function BackRow(g: Params, ref: seq<uchar>, qry: seq<uchar>): (row: seq<int>)
    requires IsTable(g.table) && IsIndexSeq(qry) && IsIndexSeq(ref)
    ensures |row| == |ref| + 1
  {
    Rev(NoGapRow(g, Rev(qry), Rev(ref), |qry|))
  }

  // ---------------------------------------------------------------------------
  // Where a row lives in the score array
  // ---------------------------------------------------------------------------

  /** The array index of cell j (1 <= j <= len) of a row over the region
    * start..start + len: left to right for the forward pass, right to left
    * for the reverse one. */
  function Pos(fwd: bool, start: nat, len: nat, j: nat): (p: nat)
    requires 1 <= j <= len
    ensures start <= p < start + len
  {
    if fwd then start + j - 1 else start + len - j
  }

  /** The array holds cells 1..len of `row` at their positions. */
  ghost predicate Holds(a: array<int>, fwd: bool, start: nat, len: nat, row: seq<int>)
    reads a
  {
    |row| == len + 1 && start + len <= a.Length
    && forall j {:trigger row[j]} :: 1 <= j <= len ==> a[Pos(fwd, start, len, j)] == row[j]
  }

  /** `ref` is the region of refSeq read in the pass's direction. */
  ghost predicate Oriented(refSeq: seq<uchar>, ref: seq<uchar>, fwd: bool, start: nat)
  {
    start + |ref| <= |refSeq|
    && forall j {:trigger ref[j - 1]} :: 1 <= j <= |ref| ==> ref[j - 1] == refSeq[Pos(fwd, start, |ref|, j)]
  }

  lemma HoldsForward(a: array<int>, start: nat, len: nat, row: seq<int>)
    requires Holds(a, true, start, len, row)
    ensures a[start..start + len] == row[1..]
  {
    forall k | 0 <= k < len
      ensures a[start..start + len][k] == row[1..][k]
    {
      assert Pos(true, start, len, k + 1) == start + k;
    }
  }

  lemma HoldsBackward(a: array<int>, start: nat, len: nat, row: seq<int>)
    requires Holds(a, false, start, len, row)
    ensures a[start..start + len] == Rev(row)[..len]
  {
    forall k | 0 <= k < len
      ensures a[start..start + len][k] == Rev(row)[..len][k]
    {
      assert Pos(false, start, len, len - k) == start + k;
    }
  }

  lemma OrientForward(refSeq: seq<uchar>, start: nat, len: nat)
    requires start + len <= |refSeq|
    ensures Oriented(refSeq, refSeq[start..start + len], true, start)
  {
  }

  lemma OrientBackward(refSeq: seq<uchar>, start: nat, len: nat)
    requires start + len <= |refSeq|
    ensures Oriented(refSeq, Rev(refSeq[start..start + len]), false, start)
  {
  }

  // ---------------------------------------------------------------------------
  // One row (the inner loop of both passes)
  // ---------------------------------------------------------------------------

  /** The state after the cells before j of a row: cells 1..j - 1 written,
    * the rest still the row above, and the next SNP and deletion scores. */
  ghost predicate RowState(g: Params, qb: uchar, ref: seq<uchar>, above: seq<int>, first: int,
                           a: array<int>, fwd: bool, start: nat, j: nat, nextSnp: int, del: int)
    reads a
    requires IsTable(g.table) && qb as int < MatrixCol && IsIndexSeq(ref)
    requires |above| == |ref| + 1 && 1 <= j <= |ref|
  {
    var row := NoGapCells(g, qb, ref, above, first, j - 1);
    start + |ref| <= a.Length
    && (forall k {:trigger row[k]} :: 1 <= k < j ==> a[Pos(fwd, start, |ref|, k)] == row[k])
    && (forall k {:trigger above[k]} :: j <= k <= |ref| ==> a[Pos(fwd, start, |ref|, k)] == above[k])
    && nextSnp == above[j - 1] && del == row[j - 1] + g.gapOpen
  }

  /** hirschScoreNoGap on cell j (< |ref|). */
  method CellStep(alnSet: AlnSet, ghost g: Params, qb: uchar, refSeq: seq<uchar>, ghost ref: seq<uchar>,
                  ghost above: seq<int>, first: int, a: array<int>, fwd: bool, start: nat, len: nat, j: nat,
                  nextSnp: int, del: int)
    returns (nextSnp': int, del': int)
    requires ParamsMatch(g, alnSet) && qb as int < MatrixCol && IsIndexSeq(ref) && len == |ref|
    requires Oriented(refSeq, ref, fwd, start)
    requires |above| == |ref| + 1 && 1 <= j < |ref|
    requires RowState(g, qb, ref, above, first, a, fwd, start, j, nextSnp, del)
    modifies a
    ensures RowState(g, qb, ref, above, first, a, fwd, start, j + 1, nextSnp', del')
    ensures forall k :: 0 <= k < a.Length && k != Pos(fwd, start, |ref|, j) ==> a[k] == old(a[k])
  {
    ghost var left := NoGapCells(g, qb, ref, above, first, j - 1);
    var p := Pos(fwd, start, len, j);
    assert refSeq[p] == ref[j - 1];
    var snp := nextSnp + alnSet.GetBaseScore(qb, refSeq[p]);
    var ins := a[p] + alnSet.settings.gapOpen;
    nextSnp' := a[p];
    var score := AlnMaxScore(alnSet.settings.bestDir, snp, ins, del);
    a[p] := score;
    del' := score + alnSet.settings.gapOpen;
    ghost var row := NoGapCells(g, qb, ref, above, first, j);
    assert row == left + [score];
    forall k | 1 <= k <= |ref| && k != j
      ensures Pos(fwd, start, |ref|, k) != p
    {
    }
  }

  /** One row of a pass: all cells, the last one by hirschScoreRowEndNoGap. */
  method FillNoGapRow(alnSet: AlnSet, ghost g: Params, qb: uchar, refSeq: seq<uchar>, ghost ref: seq<uchar>,
                      ghost above: seq<int>, first: int, a: array<int>, fwd: bool, start: nat, len: nat,
                      nextSnp0: int, del0: int)
    requires ParamsMatch(g, alnSet) && qb as int < MatrixCol && IsIndexSeq(ref) && len == |ref|
    requires Oriented(refSeq, ref, fwd, start) && |ref| >= 1
    requires |above| == |ref| + 1 && Holds(a, fwd, start, |ref|, above)
    requires nextSnp0 == above[0] && del0 == first + g.gapOpen
    modifies a
    ensures Holds(a, fwd, start, |ref|, NoGapCells(g, qb, ref, above, first, |ref|))
    ensures forall k :: 0 <= k < a.Length && !(start <= k < start + |ref|) ==> a[k] == old(a[k])
  {
    var nextSnp, del := nextSnp0, del0;
    var j := 1;
    while j < len
      invariant 1 <= j <= |ref|
      invariant RowState(g, qb, ref, above, first, a, fwd, start, j, nextSnp, del)
      invariant forall k :: 0 <= k < a.Length && !(start <= k < start + |ref|) ==> a[k] == old(a[k])
    {
      nextSnp, del := CellStep(alnSet, g, qb, refSeq, ref, above, first, a, fwd, start, len, j, nextSnp, del);
      j := j + 1;
    }
    LastCell(alnSet, g, qb, refSeq, ref, above, first, a, fwd, start, len, nextSnp, del);
  }

  /** hirschScoreRowEndNoGap on the row's last cell. */
  method LastCell(alnSet: AlnSet, ghost g: Params, qb: uchar, refSeq: seq<uchar>, ghost ref: seq<uchar>,
                  ghost above: seq<int>, first: int, a: array<int>, fwd: bool, start: nat, len: nat,
                  nextSnp: int, del: int)
    requires ParamsMatch(g, alnSet) && qb as int < MatrixCol && IsIndexSeq(ref) && len == |ref|
    requires Oriented(refSeq, ref, fwd, start) && |ref| >= 1
    requires |above| == |ref| + 1
    requires RowState(g, qb, ref, above, first, a, fwd, start, |ref|, nextSnp, del)
    modifies a
    ensures Holds(a, fwd, start, |ref|, NoGapCells(g, qb, ref, above, first, |ref|))
    ensures forall k :: 0 <= k < a.Length && !(start <= k < start + |ref|) ==> a[k] == old(a[k])
  {
    var n := len;
    ghost var left := NoGapCells(g, qb, ref, above, first, n - 1);
    var p := Pos(fwd, start, n, n);
    assert refSeq[p] == ref[n - 1];
    var snp := nextSnp + alnSet.GetBaseScore(qb, refSeq[p]);
    var ins := a[p] + alnSet.settings.gapOpen;
    var score := AlnMaxScore(alnSet.settings.bestDir, snp, ins, del);
    a[p] := score;
    ghost var row := NoGapCells(g, qb, ref, above, first, n);
    assert row == left + [score];
    forall k | 1 <= k < n
      ensures Pos(fwd, start, n, k) != p
    {
    }
  }

  // ---------------------------------------------------------------------------
  // The two passes
  // ---------------------------------------------------------------------------

  /** The outer loop's state before query row i: the array holds row i of
    * the pass and the gap-column score is (i + 1) * gapOpen. */
  ghost predicate PassState(g: Params, qry: seq<uchar>, ref: seq<uchar>, a: array<int>, fwd: bool,
                            start: nat, i: nat, nextSnp: int, gapCol: int, del: int)
    reads a
    requires IsTable(g.table) && IsIndexSeq(qry) && IsIndexSeq(ref) && i <= |qry|
  {
    Holds(a, fwd, start, |ref|, NoGapRow(g, qry, ref, i))
    && nextSnp == Gaps(i, g.gapOpen) && gapCol == Gaps(i + 1, g.gapOpen) && del == gapCol + g.gapOpen
  }

  /** One pass of the outer loop: the row for query base qb (row i + 1),
    * then the gap column of the next row. */
  method PassRow(alnSet: AlnSet, ghost g: Params, qb: uchar, ghost qry: seq<uchar>, ghost i: nat,
                 refSeq: seq<uchar>, ghost ref: seq<uchar>, a: array<int>, fwd: bool, start: nat, len: nat,
                 nextSnp: int, gapCol: int, del: int)
    returns (nextSnp': int, gapCol': int, del': int)
    requires ParamsMatch(g, alnSet) && IsIndexSeq(qry) && IsIndexSeq(ref) && len == |ref| && len >= 1
    requires Oriented(refSeq, ref, fwd, start)
    requires i < |qry| && qry[i] == qb
    requires PassState(g, qry, ref, a, fwd, start, i, nextSnp, gapCol, del)
    modifies a
    ensures PassState(g, qry, ref, a, fwd, start, i + 1, nextSnp', gapCol', del')
    ensures forall k :: 0 <= k < a.Length && !(start <= k < start + len) ==> a[k] == old(a[k])
  {
    FillNoGapRow(alnSet, g, qb, refSeq, ref, NoGapRow(g, qry, ref, i), gapCol, a, fwd, start, len, nextSnp, del);
    nextSnp' := gapCol;
    gapCol' := gapCol + alnSet.settings.gapOpen;
    del' := gapCol' + alnSet.settings.gapOpen;
  }

  /** The forward pass's first row: gapOpen, 2 * gapOpen, ... from refStart. */
  method ForRowZero(ghost g: Params, gapOpen: int, ghost qry: seq<uchar>, ghost ref: seq<uchar>,
                    a: array<int>, start: nat, len: nat)
    requires IsTable(g.table) && IsIndexSeq(qry) && IsIndexSeq(ref) && g.gapOpen == gapOpen
    requires len == |ref| && len >= 1 && start + len <= a.Length
    modifies a
    ensures Holds(a, true, start, len, NoGapRow(g, qry, ref, 0))
    ensures forall k :: 0 <= k < a.Length && !(start <= k < start + len) ==> a[k] == old(a[k])
  {
    a[start] := gapOpen;
    var rb := start + 1;
    while rb < start + len
      invariant start + 1 <= rb <= start + len
      invariant forall k :: start <= k < rb ==> a[k] == Gaps(k - start + 1, gapOpen)
      invariant forall k :: 0 <= k < a.Length && !(start <= k < start + len) ==> a[k] == old(a[k])
    {
      a[rb] := a[rb - 1] + gapOpen;
      rb := rb + 1;
    }
  }

  /** The reverse pass's first row, from the region's end down: its loop
    * stops above refStart and the last statement fills refStart. */
  method RevRowZero(ghost g: Params, gapOpen: int, ghost qry: seq<uchar>, ghost ref: seq<uchar>,
                    a: array<int>, start: nat, len: nat)
    requires IsTable(g.table) && IsIndexSeq(qry) && IsIndexSeq(ref) && g.gapOpen == gapOpen
    requires len == |ref| && len >= 2 && start + len <= a.Length
    modifies a
    ensures Holds(a, false, start, len, NoGapRow(g, qry, ref, 0))
    ensures forall k :: 0 <= k < a.Length && !(start <= k < start + len) ==> a[k] == old(a[k])
  {
    a[start + len - 1] := gapOpen;
    var rb := start + len - 2;
    while rb > start
      invariant start <= rb <= start + len - 2
      invariant forall k :: rb < k < start + len ==> a[k] == Gaps(start + len - k, gapOpen)
      invariant forall k :: 0 <= k < a.Length && !(start <= k < start + len) ==> a[k] == old(a[k])
    {
      a[rb] := a[rb + 1] + gapOpen;
      rb := rb - 1;
    }
    a[rb] := a[start + 1] + gapOpen;
  }

  /** scoreHirschForNoGap: leaves the forward row of qrySeq[qryStart..
    * qryStart + qryLen) against refSeq[refStart..refStart + refLen) in
    * scoreAry[refStart..refStart + refLen) and returns its gap column. */
  method ScoreHirschForNoGap(alnSet: AlnSet, ghost g: Params,
                             refSeq: seq<uchar>, refStart: nat, refLen: nat,
                             qrySeq: seq<uchar>, qryStart: nat, qryLen: nat,
                             scoreAry: array<int>)
    returns (gapCol: int)
    requires ParamsMatch(g, alnSet) && IsIndexSeq(refSeq) && IsIndexSeq(qrySeq)
    requires refLen >= 1 && refStart + refLen <= |refSeq| && refStart + refLen <= scoreAry.Length
    requires qryStart + qryLen <= |qrySeq|
    modifies scoreAry
    ensures var row := ForRow(g, refSeq[refStart..refStart + refLen], qrySeq[qryStart..qryStart + qryLen]);
            scoreAry[refStart..refStart + refLen] == row[1..] && gapCol == row[0]
    ensures gapCol == Gaps(qryLen, g.gapOpen)
    ensures forall k :: 0 <= k < scoreAry.Length && !(refStart <= k < refStart + refLen) ==> scoreAry[k] == old(scoreAry[k])
  {
    ghost var ref := refSeq[refStart..refStart + refLen];
    ghost var qry := qrySeq[qryStart..qryStart + qryLen];
    OrientForward(refSeq, refStart, refLen);
    var gapOpen := alnSet.settings.gapOpen;
    ForRowZero(g, gapOpen, qry, ref, scoreAry, refStart, refLen);
    var nextSnp := 0;
    gapCol := gapOpen;
    var del := gapCol + gapOpen;
    var qb := qryStart;
    while qb < qryStart + qryLen
      invariant qryStart <= qb <= qryStart + qryLen
      invariant PassState(g, qry, ref, scoreAry, true, refStart, qb - qryStart, nextSnp, gapCol, del)
      invariant forall k :: 0 <= k < scoreAry.Length && !(refStart <= k < refStart + refLen) ==> scoreAry[k] == old(scoreAry[k])
    {
      nextSnp, gapCol, del := PassRow(alnSet, g, qrySeq[qb], qry, qb - qryStart, refSeq, ref,
                                      scoreAry, true, refStart, refLen, nextSnp, gapCol, del);
      qb := qb + 1;
    }
    gapCol := gapCol - gapOpen;
    HoldsForward(scoreAry, refStart, refLen, ForRow(g, ref, qry));
  }

  /** scoreHirschRevNoGap: the same for both regions read backwards; the
    * array gets the reverse row (entry k: ref[k..] against the query) and
    * the result is its gap column, the entry past the region. Its query
    * loop counts an unsigned index down to qryStart, so it needs
    * qryStart >= 1; its first-row loop needs refLen >= 2. */
  method ScoreHirschRevNoGap(alnSet: AlnSet, ghost g: Params,
                             refSeq: seq<uchar>, refStart: nat, refLen: nat,
                             qrySeq: seq<uchar>, qryStart: nat, qryLen: nat,
                             scoreAry: array<int>)
    returns (gapCol: int)
    requires ParamsMatch(g, alnSet) && IsIndexSeq(refSeq) && IsIndexSeq(qrySeq)
    requires refLen >= 2 && refStart + refLen <= |refSeq| && refStart + refLen <= scoreAry.Length
    requires qryStart >= 1 && qryStart + qryLen <= |qrySeq|
    modifies scoreAry
    ensures var row := BackRow(g, refSeq[refStart..refStart + refLen], qrySeq[qryStart..qryStart + qryLen]);
            scoreAry[refStart..refStart + refLen] == row[..refLen] && gapCol == row[refLen]
    ensures gapCol == Gaps(qryLen, g.gapOpen)
    ensures forall k :: 0 <= k < scoreAry.Length && !(refStart <= k < refStart + refLen) ==> scoreAry[k] == old(scoreAry[k])
  {
    ghost var ref := Rev(refSeq[refStart..refStart + refLen]);
    ghost var qry := Rev(qrySeq[qryStart..qryStart + qryLen]);
    OrientBackward(refSeq, refStart, refLen);
    var gapOpen := alnSet.settings.gapOpen;
    RevRowZero(g, gapOpen, qry, ref, scoreAry, refStart, refLen);
    var nextSnp := 0;
    gapCol := gapOpen;
    var del := gapCol + gapOpen;
    var qb: int := qryStart + qryLen - 1;
    while qb >= qryStart
      invariant qryStart - 1 <= qb <= qryStart + qryLen - 1
      invariant PassState(g, qry, ref, scoreAry, false, refStart, qryStart + qryLen - 1 - qb, nextSnp, gapCol, del)
      invariant forall k :: 0 <= k < scoreAry.Length && !(refStart <= k < refStart + refLen) ==> scoreAry[k] == old(scoreAry[k])
    {
      nextSnp, gapCol, del := PassRow(alnSet, g, qrySeq[qb], qry, qryStart + qryLen - 1 - qb, refSeq, ref,
                                      scoreAry, false, refStart, refLen, nextSnp, gapCol, del);
      qb := qb - 1;
    }
    gapCol := gapCol - gapOpen;
    HoldsBackward(scoreAry, refStart, refLen, NoGapRow(g, qry, ref, |qry|));
  }

  // ---------------------------------------------------------------------------
  // positionSingleBaseNoGap
  // ---------------------------------------------------------------------------

  /** For each offset k: whether the base there (k gaps of gapOpen before
    * it) beats the k + 1 gaps the loop compares it with. */
  function NoGapBeats(g: Params, base: uchar, sq: seq<uchar>): (b: seq<bool>)
    requires IsTable(g.table) && base as int < MatrixCol && IsIndexSeq(sq)
    ensures |b| == |sq|
  {
    seq(|sq|, k requires 0 <= k < |sq| => k * g.gapOpen + g.table[sq[k]][base] > (k + 1) * g.gapOpen)
  }

  /** Without gap extension the comparison no longer depends on the offset:
    * the base goes to the last position whose score beats one gap. */
  lemma NoGapBeatsScore(g: Params, base: uchar, sq: seq<uchar>, k: nat)
    requires IsTable(g.table) && base as int < MatrixCol && IsIndexSeq(sq) && k < |sq|
    ensures NoGapBeats(g, base, sq)[k] <==> g.table[sq[k]][base] > g.gapOpen
  {
    assert (k + 1) * g.gapOpen == k * g.gapOpen + g.gapOpen;
  }

  /** One step of the positionSingleBaseNoGap loop: at offset k the base's
    * score beats the gaps exactly when the entry of NoGapBeats says so. */
  lemma NoGapBeatAt(g: Params, base: uchar, sq: seq<uchar>, k: nat, ins: int, m: int)
    requires IsTable(g.table) && base as int < MatrixCol && IsIndexSeq(sq) && k < |sq|
    requires ins == k * g.gapOpen && m == ins + g.table[sq[k]][base]
    ensures (k + 1) * g.gapOpen == ins + g.gapOpen
    ensures NoGapBeats(g, base, sq)[k] <==> m > ins + g.gapOpen
  {
    assert (k + 1) * g.gapOpen == k * g.gapOpen + g.gapOpen;
  }

  /** The loop of positionSingleBaseNoGap: the absolute index the base
    * goes to. */
  method ScanPlaceNoGap(alnSet: AlnSet, ghost g: Params, base: uchar, sq: seq<uchar>, start: nat, len: nat)
    returns (snpIndex: nat)
    requires ParamsMatch(g, alnSet)
    requires base as int < MatrixCol && IsIndexSeq(sq)
    requires 1 <= len && start + len <= |sq|
    ensures snpIndex == start + PlaceOffset(NoGapBeats(g, base, sq[start..start + len]))
  {
    ghost var sub := sq[start..start + len];
    ghost var beats := NoGapBeats(g, base, sub);
    var insScore := 0;
    snpIndex := 0;
    var b := start;
    while b < start + len
      invariant start <= b <= start + len
      invariant insScore == (b - start) * g.gapOpen
      invariant snpIndex == (if LastTrue(beats, b - start) < 0 then 0 else start + LastTrue(beats, b - start))
    {
      var matchScore := insScore + alnSet.GetBaseScore(sq[b], base);
      assert sub[b - start] == sq[b];
      NoGapBeatAt(g, base, sub, b - start, insScore, matchScore);
      insScore := insScore + alnSet.settings.gapOpen;
      if matchScore > insScore {
        snpIndex := b;
      }
      b := b + 1;
    }
    if snpIndex == 0 {
      snpIndex := start;
    }
  }

  /** positionSingleBaseNoGap: as positionSingleBase, scoring every gap at
    * gapOpen. */
  method PositionSingleBaseNoGap(alnSet: AlnSet, ghost g: Params, base: uchar, baseIndex: nat,
                                 sq: seq<uchar>, start: nat, len: nat,
                                 baseAln: array<int>, seqAln: array<int>)
    requires ParamsMatch(g, alnSet)
    requires base as int < MatrixCol && IsIndexSeq(sq)
    requires 1 <= len && start + len <= |sq| && start + len <= seqAln.Length
    requires baseIndex < baseAln.Length && baseAln != seqAln
    modifies baseAln, seqAln
    ensures seqAln[start..start + len] == PlacedFlags(len, PlaceOffset(NoGapBeats(g, base, sq[start..start + len])))
    ensures forall k :: 0 <= k < seqAln.Length && !(start <= k < start + len) ==> seqAln[k] == old(seqAln[k])
    ensures baseAln[..] == old(baseAln[..])[baseIndex := SnpFlag]
  {
    var snpIndex := ScanPlaceNoGap(alnSet, g, base, sq, start, len);
    baseAln[baseIndex] := SnpFlag;
    MarkPlaced(seqAln, start, len, snpIndex);
  }
}
