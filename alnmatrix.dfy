/** The direction-matrix structures of general/alnMatrixStruct.h and the
  * conversion of a matrix index to sequence coordinates.
  * A matrix has lenRef + 1 columns (column 0 is the gap column) and one row per
  * query base plus the gap row 0; cell (row, col) is at row * (lenRef + 1) + col. */
module AlnMatrixStruct {
  import TwoBitArrays
  import opened GenMath
  import opened DataTypeShortHand

  /** indexToQry: `index / (refLen + 1) - (index >= refLen)`. */
  function IndexToQry(refLen: nat, index: nat): int
  {
    ULong(index / (refLen + 1) - B2I(index >= refLen))
  }

  /** indexToRef: `index % (refLen + 1) - ((index / (refLen + 1)) > 0)`. */
  function IndexToRef(refLen: nat, index: nat): int
  {
    ULong(index % (refLen + 1) - B2I(index / (refLen + 1) > 0))
  }

  /** indexToCoord: the pair (reference coordinate, query coordinate). */
  function IndexToCoord(refLen: nat, index: nat): (int, int)
  {
    (IndexToRef(refLen, index), IndexToQry(refLen, index))
  }

  /** A cell off the gap row and gap column maps back to 0-based base positions:
    * reference base col - 1 and query base row - 1. */
  lemma IndexToCoordOfCell(refLen: nat, row: nat, col: nat)
    requires 1 <= row && 1 <= col <= refLen
    requires row * (refLen + 1) + col < ULongMod
    ensures IndexToCoord(refLen, row * (refLen + 1) + col) == (col - 1, row - 1)
  {
    var w := refLen + 1;
    var index := row * w + col;
    assert index / w == row && index % w == col by {
      LemmaDivModUnique(index, w, row, col);
    }
  }

  /** Index of the cell of 0-based reference base `refPos` and query base `qryPos`. */
  function CoordToIndex(refLen: nat, refPos: nat, qryPos: nat): nat {
    (qryPos + 1) * (refLen + 1) + refPos + 1
  }

  /** Round trip: coordinates to index and back. */
  lemma CoordIndexRoundTrip(refLen: nat, refPos: nat, qryPos: nat)
    requires refPos < refLen
    requires CoordToIndex(refLen, refPos, qryPos) < ULongMod
    ensures IndexToCoord(refLen, CoordToIndex(refLen, refPos, qryPos)) == (refPos, qryPos)
  {
    IndexToCoordOfCell(refLen, qryPos + 1, refPos + 1);
  }

  /** In the gap row the formulas do not subtract the gap column: cell (0, col)
    * gives reference coordinate col, and the last gap-row cell gives a query
    * coordinate of -1 wrapped to the largest unsigned long. */
  lemma IndexToCoordGapRow(refLen: nat, col: nat)
    requires col <= refLen < ULongMod
    ensures IndexToRef(refLen, col) == col
    ensures IndexToQry(refLen, col) == (if col == refLen then ULongMod - 1 else 0)
  {
    LemmaDivModUnique(col, refLen + 1, 0, col);
  }

  lemma MulMono(a: nat, b: nat, w: nat)
    requires a <= b
    ensures a * w <= b * w
  {
    assert b * w == a * w + (b - a) * w;
  }

  /** An index below n rows of width w lies in one of those rows. */
  lemma DivBelow(k: nat, w: nat, n: nat)
    requires w > 0 && k < n * w
    ensures k / w < n
  {
    var q := k / w;
    assert q * w <= k;
    if q >= n {
      MulMono(n, q, w);
    }
  }

  lemma MulAtLeast(a: int, w: int)
    requires a >= 1 && w > 0
    ensures a * w >= w
  {
    assert a * w == (a - 1) * w + w;
  }

  lemma LemmaDivModUnique(x: int, w: int, q: int, r: int)
    requires w > 0 && 0 <= r < w && x == q * w + r
    ensures x / w == q && x % w == r
  {
    var q' := x / w;
    var r' := x % w;
    assert q' * w + r' == q * w + r;
    if q' > q {
      assert (q' - q) * w == r - r';
      MulAtLeast(q' - q, w);
    } else if q' < q {
      assert (q - q') * w == r' - r;
      MulAtLeast(q - q', w);
    }
  }

  /** alnMatrix: a direction matrix of one byte per cell, the best score with
    * its start and end indexes, the sequence lengths and offsets, and the
    * per-base score arrays used by the scan modes. */
  class AlnMatrix {
    var dirMatrix: array?<int>
    var bestScore: int
    var bestStartIndex: int
    var bestEndIndex: int
    var lenRef: int
    var refOffset: int
    var lenQry: int
    var qryOffset: int
    var lenArrays: int
    var scoreAry: array?<int>
    var startIndexAry: array?<nat>
    var endIndexAry: array?<nat>

    /** Every pointer null and every counter 0. */
    ghost predicate IsEmpty()
      reads this
    {
      && dirMatrix == null && scoreAry == null && startIndexAry == null && endIndexAry == null
      && bestScore == 0 && bestStartIndex == 0 && bestEndIndex == 0
      && lenRef == 0 && refOffset == 0 && lenQry == 0 && qryOffset == 0
      && lenArrays == 0
    }

    /** initAlnMatrix. */
    constructor ()
      ensures IsEmpty()
    {
      dirMatrix := null;
      bestScore := 0;
      bestEndIndex := 0;
      bestStartIndex := 0;
      lenRef := 0;
      refOffset := 0;
      lenQry := 0;
      qryOffset := 0;
      lenArrays := 0;
      scoreAry := null;
      startIndexAry := null;
      endIndexAry := null;
    }

    /** freeAlnMatrixStack: the arrays are released and the structure is left as
      * initAlnMatrix leaves it. */
    method FreeAlnMatrixStack()
      modifies this
      ensures IsEmpty()
    {
      if dirMatrix != null { dirMatrix := null; }
      if scoreAry != null { scoreAry := null; }
      if startIndexAry != null { startIndexAry := null; }
      if endIndexAry != null { endIndexAry := null; }
      bestScore := 0;
      bestEndIndex := 0;
      bestStartIndex := 0;
      lenRef := 0;
      refOffset := 0;
      lenQry := 0;
      qryOffset := 0;
      lenArrays := 0;
    }
  }

  /** alnMatrixTwoBit: the same structure over a 2-bit direction matrix. */
  class AlnMatrixTwoBit {
    var dirMatrix: TwoBitArrays.TwoBitAry?
    var bestScore: int
    var bestStartIndex: int
    var bestEndIndex: int
    var lenRef: int
    var refOffset: int
    var lenQry: int
    var qryOffset: int
    var lenArrays: int
    var scoreAry: array?<int>
    var startIndexAry: array?<nat>
    var endIndexAry: array?<nat>

    ghost predicate IsEmpty()
      reads this
    {
      && dirMatrix == null && scoreAry == null && startIndexAry == null && endIndexAry == null
      && bestScore == 0 && bestStartIndex == 0 && bestEndIndex == 0
      && lenRef == 0 && refOffset == 0 && lenQry == 0 && qryOffset == 0
      && lenArrays == 0
    }

    /** initAlnMatrixTwoBit. */
    constructor ()
      ensures IsEmpty()
    {
      dirMatrix := null;
      bestScore := 0;
      bestEndIndex := 0;
      bestStartIndex := 0;
      lenRef := 0;
      refOffset := 0;
      lenQry := 0;
      qryOffset := 0;
      lenArrays := 0;
      scoreAry := null;
      startIndexAry := null;
      endIndexAry := null;
    }

    /** freeAlnMatrixTwoBitStack. */
    method FreeAlnMatrixTwoBitStack()
      modifies this
      ensures IsEmpty()
    {
      if dirMatrix != null { dirMatrix := null; }
      if scoreAry != null { scoreAry := null; }
      if startIndexAry != null { startIndexAry := null; }
      if endIndexAry != null { endIndexAry := null; }
      bestScore := 0;
      bestEndIndex := 0;
      bestStartIndex := 0;
      lenRef := 0;
      refOffset := 0;
      lenQry := 0;
      qryOffset := 0;
      lenArrays := 0;
    }
  }
}
