/** The alignment structure of general/alnStruct.h: the traceback of a
  * direction matrix into per-base flag arrays (dirMatrixToAln), the rendering
  * of those flags as two gapped strings (alnSTToSeq), the eqx symbols of the
  * printed formats and the capping of a read id (capIdLen). */
module AlnStructs {
  import opened DataTypeShortHand
  import opened GenAln
  import opened AlnSetStruct
  import opened AlnMatrixStruct
  import opened AlnRecurrence

  /** Per-base alignment flags (defEndAlnFlag .. defSoftMaskFlag). The end flag
    * is 0, which is also what calloc leaves in an untouched entry. */
  const EndAlnFlag: int := 0
  const GapFlag: int := 1
  const SnpFlag: int := 2
  const MatchFlag: int := 3
  const SoftMaskFlag: int := 4

  /** The values of an alnStruct with both flag arrays allocated. */
  datatype AlnView = AlnView(refAln: seq<int>, qryAln: seq<int>, refLen: int, qryLen: int,
                             refStart: int, refEnd: int, qryStart: int, qryEnd: int,
                             lenAln: int, numIns: int, numDels: int, numSnps: int, numMatches: int)

  /** alnStruct: one flag per reference base and one per query base, each
    * array closed by an end flag, with the alignment's coordinates and its
    * counts of insertions, deletions, SNPs and matches. */
  class AlnStruct {
    var refAln: array?<int>
    var qryAln: array?<int>
    var refLen: int
    var qryLen: int
    var lenAln: int
    var refStart: int
    var refEnd: int
    var qryStart: int
    var qryEnd: int
    var numIns: int
    var numDels: int
    var numSnps: int
    var numMatches: int

    /** Both arrays null and every counter 0. */
    ghost predicate IsEmpty()
      reads this
    {
      && refAln == null && qryAln == null
      && refLen == 0 && qryLen == 0 && lenAln == 0
      && refStart == 0 && refEnd == 0 && qryStart == 0 && qryEnd == 0
      && numIns == 0 && numDels == 0 && numSnps == 0 && numMatches == 0
    }

    /** initAlnST (a calloc'd structure is in the same state). */
    constructor ()
      ensures IsEmpty()
    {
      refAln := null;
      qryAln := null;
      refLen := 0;
      qryLen := 0;
      lenAln := 0;
      refStart := 0;
      refEnd := 0;
      qryStart := 0;
      qryEnd := 0;
      numIns := 0;
      numDels := 0;
      numSnps := 0;
      numMatches := 0;
    }

    /** The values held, once both flag arrays are allocated. */
    function View(): AlnView
      reads this, refAln, qryAln
      requires refAln != null && qryAln != null
    {
      AlnView(refAln[..], qryAln[..], refLen, qryLen, refStart, refEnd, qryStart, qryEnd,
              lenAln, numIns, numDels, numSnps, numMatches)
    }

    /** The structure dirMatrixToAln fills in: the two flag arrays, the
      * sequence lengths, the end coordinates and the counters of the walk. */
    constructor Filled(refAln: array<int>, qryAln: array<int>, refLen: int, qryLen: int,
                       refEnd: int, qryEnd: int, n: Tally)
      ensures this.refAln == refAln && this.qryAln == qryAln
      ensures this.refLen == refLen && this.qryLen == qryLen
      ensures this.refEnd == refEnd && this.qryEnd == qryEnd
      ensures this.refStart == n.lastRef && this.qryStart == n.lastQry
      ensures lenAln == n.lenAln && numIns == n.numIns && numDels == n.numDels
      ensures numSnps == n.numSnps && numMatches == n.numMatches
    {
      this.refAln, this.qryAln := refAln, qryAln;
      this.refLen, this.qryLen := refLen, qryLen;
      this.refEnd, this.qryEnd := refEnd, qryEnd;
      refStart, qryStart := n.lastRef, n.lastQry;
      lenAln, numIns, numDels, numSnps, numMatches := n.lenAln, n.numIns, n.numDels, n.numSnps, n.numMatches;
    }

    /** A structure holding the two flag arrays and the values `v` gives for
      * every other field. */
    constructor Holding(refAln: array<int>, qryAln: array<int>, v: AlnView)
      ensures this.refAln == refAln && this.qryAln == qryAln
      ensures refLen == v.refLen && qryLen == v.qryLen && lenAln == v.lenAln
      ensures refStart == v.refStart && refEnd == v.refEnd && qryStart == v.qryStart && qryEnd == v.qryEnd
      ensures numIns == v.numIns && numDels == v.numDels && numSnps == v.numSnps && numMatches == v.numMatches
    {
      this.refAln, this.qryAln := refAln, qryAln;
      refLen, qryLen, lenAln := v.refLen, v.qryLen, v.lenAln;
      refStart, refEnd, qryStart, qryEnd := v.refStart, v.refEnd, v.qryStart, v.qryEnd;
      numIns, numDels, numSnps, numMatches := v.numIns, v.numDels, v.numSnps, v.numMatches;
    }
  }

  // ---------------------------------------------------------------------------
  // The traceback as a path through the direction matrix
  // ---------------------------------------------------------------------------

  /** What a traceback reads: the flat direction matrix, the aligned windows of
    * the query (rows) and reference (columns) as lookup indexes, and the match
    * matrix of the alnSet. */
  datatype Traceback = Traceback(dirs: seq<int>, qry: seq<uchar>, ref: seq<uchar>, matches: seq<seq<int>>)

  /** Direction of cell (i, j); cells outside the matrix read as a stop. */
  function DirAt(t: Traceback, i: nat, j: nat): int {
    var k := i * (|t.ref| + 1) + j;
    if k < |t.dirs| then t.dirs[k] else MvStop
  }

  /** A matrix the traceback can walk: every cell holds a direction, the gap
    * row never points up or diagonally and the gap column never points left or
    * diagonally, so every move stays inside the matrix. */
  ghost predicate Walkable(t: Traceback) {
    && (|t.qry| + 1) * (|t.ref| + 1) <= |t.dirs|
    && IsTable(t.matches) && IsIndexSeq(t.qry) && IsIndexSeq(t.ref)
    && (forall i, j :: 0 <= i <= |t.qry| && 0 <= j <= |t.ref| ==> IsDir(DirAt(t, i, j)))
    && (forall j :: 0 <= j <= |t.ref| ==> DirAt(t, 0, j) != MvIns && DirAt(t, 0, j) != MvSnp)
    && (forall i :: 0 <= i <= |t.qry| ==> DirAt(t, i, 0) != MvDel && DirAt(t, i, 0) != MvSnp)
  }

  /** A direction matrix stored row after row from `mx` and closed by a stop
    * can be walked when every cell of `mx` holds a direction, its gap row
    * never points up or diagonally and its gap column never points left or
    * diagonally. */
  lemma FlatWalkable(mx: seq<seq<Cell>>, t: Traceback)
    requires IsTable(t.matches) && IsIndexSeq(t.qry) && IsIndexSeq(t.ref)
    requires |mx| == |t.qry| + 1 && Rectangular(mx, |t.ref| + 1)
    requires t.dirs == Flatten(mx, |mx|) + [MvStop]
    requires forall i, j :: 0 <= i <= |t.qry| && 0 <= j <= |t.ref| ==> IsDir(mx[i][j].dir)
    requires forall j :: 0 <= j <= |t.ref| ==> mx[0][j].dir != MvIns && mx[0][j].dir != MvSnp
    requires forall i :: 0 <= i <= |t.qry| ==> mx[i][0].dir != MvDel && mx[i][0].dir != MvSnp
    ensures Walkable(t)
  {
    var w := |t.ref| + 1;
    FlattenLength(mx, w, |mx|);
    forall i, j | 0 <= i <= |t.qry| && 0 <= j <= |t.ref|
      ensures DirAt(t, i, j) == mx[i][j].dir
    {
      FlattenCell(mx, w, |mx|, i, j);
    }
  }

  /** The flag of the aligned pair at cell (i, j): defMatchFlag when the match
    * matrix calls the two bases a match, defSnpFlag otherwise. */
  function PairFlag(t: Traceback, i: nat, j: nat): (f: int)
    requires IsTable(t.matches) && IsIndexSeq(t.qry) && IsIndexSeq(t.ref)
    requires 1 <= i <= |t.qry| && 1 <= j <= |t.ref|
    ensures f == MatchFlag || f == SnpFlag
  {
    if t.matches[t.qry[i - 1]][t.ref[j - 1]] != 0 then MatchFlag else SnpFlag
  }

  predicate IsPairFlag(f: int) { f == SnpFlag || f == MatchFlag }

  /** The cell a traceback moves to from (i, j): up for an insertion,
    * diagonally for a match/SNP, left for a deletion. */
  function Back(t: Traceback, i: nat, j: nat): (c: (nat, nat))
    requires Walkable(t) && i <= |t.qry| && j <= |t.ref| && DirAt(t, i, j) != MvStop
    ensures c.0 <= i && c.1 <= j && c.0 + c.1 < i + j
  {
    var d := DirAt(t, i, j);
    if d == MvIns then (i - 1, j)
    else if d == MvSnp then (i - 1, j - 1)
    else (i, j - 1)
  }

  /** The reference flag a move from (i, j) leaves: a match/SNP flag for a
    * diagonal move, a gap for a deletion, none for an insertion. */
  function RefStep(t: Traceback, i: nat, j: nat): (s: seq<int>)
    requires Walkable(t) && i <= |t.qry| && j <= |t.ref| && DirAt(t, i, j) != MvStop
    ensures |s| == j - Back(t, i, j).1
  {
    var d := DirAt(t, i, j);
    if d == MvIns then [] else if d == MvSnp then [PairFlag(t, i, j)] else [GapFlag]
  }

  /** The query flag a move from (i, j) leaves. */
  function QryStep(t: Traceback, i: nat, j: nat): (s: seq<int>)
    requires Walkable(t) && i <= |t.qry| && j <= |t.ref| && DirAt(t, i, j) != MvStop
    ensures |s| == i - Back(t, i, j).0
  {
    var d := DirAt(t, i, j);
    if d == MvIns then [GapFlag] else if d == MvSnp then [PairFlag(t, i, j)] else []
  }

  /** Flags of reference bases 0 .. j - 1 when the path ending at (i, j) is
    * traced back: a deletion flags its reference base as a gap, a diagonal
    * step flags it as a match or SNP, and the bases before the cell where the
    * path stops are soft masked. */
  function RefFlags(t: Traceback, i: nat, j: nat): (f: seq<int>)
    requires Walkable(t) && i <= |t.qry| && j <= |t.ref|
    ensures |f| == j
    decreases i + j
  {
    if DirAt(t, i, j) == MvStop then seq(j, _ => SoftMaskFlag)
    else
      var c := Back(t, i, j);
      RefFlags(t, c.0, c.1) + RefStep(t, i, j)
  }

  /** Flags of query bases 0 .. i - 1, as RefFlags with insertions as gaps. */
  function QryFlags(t: Traceback, i: nat, j: nat): (f: seq<int>)
    requires Walkable(t) && i <= |t.qry| && j <= |t.ref|
    ensures |f| == i
    decreases i + j
  {
    if DirAt(t, i, j) == MvStop then seq(i, _ => SoftMaskFlag)
    else
      var c := Back(t, i, j);
      QryFlags(t, c.0, c.1) + QryStep(t, i, j)
  }

  /** Number of moves on the path ending at (i, j). */
  function PathLen(t: Traceback, i: nat, j: nat): nat
    requires Walkable(t) && i <= |t.qry| && j <= |t.ref|
    decreases i + j
  {
    if DirAt(t, i, j) == MvStop then 0
    else
      var c := Back(t, i, j);
      PathLen(t, c.0, c.1) + 1
  }

  /** The (reference, query) base positions of the diagonal move nearest the
    * stop cell on the path ending at (i, j), or `none` if the path has no
    * diagonal move. */
  function FirstPair(t: Traceback, i: nat, j: nat, none: (int, int)): (int, int)
    requires Walkable(t) && i <= |t.qry| && j <= |t.ref|
    decreases i + j
  {
    if DirAt(t, i, j) == MvStop then none
    else
      var c := Back(t, i, j);
      FirstPair(t, c.0, c.1, if DirAt(t, i, j) == MvSnp then (j - 1, i - 1) else none)
  }

  /** Number of entries of `s` equal to `f`. */
  function CountFlag(s: seq<int>, f: int): (n: nat)
    ensures n <= |s|
  {
    if s == [] then 0 else CountFlag(s[..|s| - 1], f) + (if s[|s| - 1] == f then 1 else 0)
  }

  lemma {:induction false} CountFlagAppend(a: seq<int>, b: seq<int>, f: int)
    ensures CountFlag(a + b, f) == CountFlag(a, f) + CountFlag(b, f)
    decreases |b|
  {
    if b == [] {
      assert a + b == a;
    } else {
      assert (a + b)[..|a + b| - 1] == a + b[..|b| - 1];
      CountFlagAppend(a, b[..|b| - 1], f);
    }
  }

  lemma {:induction false} CountFlagConst(n: nat, v: int, f: int)
    ensures CountFlag(seq(n, _ => v), f) == if v == f then n else 0
  {
    if n > 0 {
      assert seq(n, _ => v)[..n - 1] == seq(n - 1, _ => v);
      CountFlagConst(n - 1, v, f);
    }
  }

  /** One move adds one to the sum of the counts. */
  lemma StepCounts(t: Traceback, i: nat, j: nat)
    requires Walkable(t) && i <= |t.qry| && j <= |t.ref| && DirAt(t, i, j) != MvStop
    ensures CountFlag(QryStep(t, i, j), GapFlag) + CountFlag(RefStep(t, i, j), GapFlag)
          + CountFlag(RefStep(t, i, j), SnpFlag) + CountFlag(RefStep(t, i, j), MatchFlag) == 1
    ensures CountFlag(RefStep(t, i, j), SnpFlag) == CountFlag(QryStep(t, i, j), SnpFlag)
    ensures CountFlag(RefStep(t, i, j), MatchFlag) == CountFlag(QryStep(t, i, j), MatchFlag)
  {
  }

  /** The counts dirMatrixToAln keeps add up to the alignment length:
    * lenAln == numIns + numDels + numSnps + numMatches. */
  lemma {:induction false} PathLenIsCountSum(t: Traceback, i: nat, j: nat)
    requires Walkable(t) && i <= |t.qry| && j <= |t.ref|
    ensures PathLen(t, i, j)
         == CountFlag(QryFlags(t, i, j), GapFlag) + CountFlag(RefFlags(t, i, j), GapFlag)
          + CountFlag(RefFlags(t, i, j), SnpFlag) + CountFlag(RefFlags(t, i, j), MatchFlag)
    decreases i + j
  {
    if DirAt(t, i, j) == MvStop {
      CountFlagConst(i, SoftMaskFlag, GapFlag);
      CountFlagConst(j, SoftMaskFlag, GapFlag);
      CountFlagConst(j, SoftMaskFlag, SnpFlag);
      CountFlagConst(j, SoftMaskFlag, MatchFlag);
    } else {
      var c := Back(t, i, j);
      PathLenIsCountSum(t, c.0, c.1);
      StepCounts(t, i, j);
      CountFlagAppend(QryFlags(t, c.0, c.1), QryStep(t, i, j), GapFlag);
      CountFlagAppend(RefFlags(t, c.0, c.1), RefStep(t, i, j), GapFlag);
      CountFlagAppend(RefFlags(t, c.0, c.1), RefStep(t, i, j), SnpFlag);
      CountFlagAppend(RefFlags(t, c.0, c.1), RefStep(t, i, j), MatchFlag);
    }
  }

  /** Each diagonal move flags one reference base and one query base with the
    * same pair flag, so both arrays hold as many SNP flags and as many match
    * flags. */
  lemma {:induction false} PairFlagsAgree(t: Traceback, i: nat, j: nat)
    requires Walkable(t) && i <= |t.qry| && j <= |t.ref|
    ensures CountFlag(RefFlags(t, i, j), SnpFlag) == CountFlag(QryFlags(t, i, j), SnpFlag)
    ensures CountFlag(RefFlags(t, i, j), MatchFlag) == CountFlag(QryFlags(t, i, j), MatchFlag)
    decreases i + j
  {
    if DirAt(t, i, j) == MvStop {
      CountFlagConst(i, SoftMaskFlag, SnpFlag);
      CountFlagConst(j, SoftMaskFlag, SnpFlag);
      CountFlagConst(i, SoftMaskFlag, MatchFlag);
      CountFlagConst(j, SoftMaskFlag, MatchFlag);
    } else {
      var c := Back(t, i, j);
      PairFlagsAgree(t, c.0, c.1);
      StepCounts(t, i, j);
      CountFlagAppend(QryFlags(t, c.0, c.1), QryStep(t, i, j), SnpFlag);
      CountFlagAppend(RefFlags(t, c.0, c.1), RefStep(t, i, j), SnpFlag);
      CountFlagAppend(QryFlags(t, c.0, c.1), QryStep(t, i, j), MatchFlag);
      CountFlagAppend(RefFlags(t, c.0, c.1), RefStep(t, i, j), MatchFlag);
    }
  }

  /** Every flag the traceback leaves is a real flag (1 .. 4), never the end
    * flag 0; this is what stops the loop that soft-masks the tail. */
  lemma {:induction false} FlagsAreSet(t: Traceback, i: nat, j: nat)
    requires Walkable(t) && i <= |t.qry| && j <= |t.ref|
    ensures forall k :: 0 <= k < j ==> 1 <= RefFlags(t, i, j)[k] <= 4
    ensures forall k :: 0 <= k < i ==> 1 <= QryFlags(t, i, j)[k] <= 4
    decreases i + j
  {
    if DirAt(t, i, j) != MvStop {
      var c := Back(t, i, j);
      FlagsAreSet(t, c.0, c.1);
    }
  }

  /** Number of match/SNP flags. */
  function Pairs(s: seq<int>): nat {
    CountFlag(s, SnpFlag) + CountFlag(s, MatchFlag)
  }

  /** A flag sequence without match/SNP flags has no pair flag anywhere. */
  lemma {:induction false} PairFreeNone(s: seq<int>)
    requires Pairs(s) == 0
    ensures forall k :: 0 <= k < |s| ==> !IsPairFlag(s[k])
  {
    if s != [] {
      PairFreeNone(s[..|s| - 1]);
      assert forall k :: 0 <= k < |s| - 1 ==> s[k] == s[..|s| - 1][k];
    }
  }

  /** Position k holds the leftmost match/SNP flag of s. */
  ghost predicate LeftmostPair(s: seq<int>, k: int) {
    0 <= k < |s| && IsPairFlag(s[k]) && forall k' :: 0 <= k' < k ==> !IsPairFlag(s[k'])
  }

  /** Appending flags keeps the leftmost pair flag. */
  lemma LeftmostExtend(p: seq<int>, step: seq<int>, k: int)
    requires LeftmostPair(p, k)
    ensures LeftmostPair(p + step, k)
  {
    assert forall k' :: 0 <= k' <= k ==> (p + step)[k'] == p[k'];
  }

  /** The first pair flag appended to a pair-free sequence is its leftmost. */
  lemma LeftmostFirst(p: seq<int>, f: int)
    requires Pairs(p) == 0 && IsPairFlag(f)
    ensures LeftmostPair(p + [f], |p|)
  {
    PairFreeNone(p);
    assert forall k' :: 0 <= k' < |p| ==> (p + [f])[k'] == p[k'];
  }

  /** A sequence with a pair flag has a positive pair count. */
  lemma {:induction false} PairsPositive(p: seq<int>, k: int)
    requires 0 <= k < |p| && IsPairFlag(p[k])
    ensures Pairs(p) > 0
  {
    if k < |p| - 1 {
      assert p[..|p| - 1][k] == p[k];
      PairsPositive(p[..|p| - 1], k);
    }
  }

  /** The pair flags of a sequence with flags appended. */
  lemma PairsAppend(p: seq<int>, step: seq<int>)
    ensures Pairs(p + step) == Pairs(p) + Pairs(step)
  {
    CountFlagAppend(p, step, SnpFlag);
    CountFlagAppend(p, step, MatchFlag);
  }

  /** One move of FirstPair on the flag sequences: a match/SNP move appends the
    * same pair flag to both sequences and offers its own positions as the
    * default, any other move appends no pair flag. */
  lemma LeftmostStep(rf: seq<int>, qf: seq<int>, rs: seq<int>, qs: seq<int>,
                     snp: bool, none: (int, int), s: (int, int))
    requires Pairs(rf) == Pairs(qf)
    requires snp ==> rs == qs && |rs| == 1 && IsPairFlag(rs[0])
    requires !snp ==> Pairs(rs) == 0
    requires var none' := if snp then (|rf|, |qf|) else none;
      if Pairs(rf) == 0 then s == none' else LeftmostPair(rf, s.0) && LeftmostPair(qf, s.1)
    ensures if Pairs(rf + rs) == 0 then s == none
      else LeftmostPair(rf + rs, s.0) && LeftmostPair(qf + qs, s.1)
  {
    PairsAppend(rf, rs);
    if Pairs(rf) == 0 {
      if snp {
        LeftmostNew(rf, qf, rs[0]);
        assert rs == [rs[0]] && qs == [rs[0]];
      }
    } else {
      LeftmostKeep(rf, qf, rs, qs, s);
    }
  }

  /** The first pair flag appended to two pair-free sequences. */
  lemma LeftmostNew(rf: seq<int>, qf: seq<int>, f: int)
    requires Pairs(rf) == 0 && Pairs(qf) == 0 && IsPairFlag(f)
    ensures LeftmostPair(rf + [f], |rf|) && LeftmostPair(qf + [f], |qf|)
  {
    LeftmostFirst(rf, f);
    LeftmostFirst(qf, f);
  }

  /** Flags appended after the leftmost pair flags leave them in place. */
  lemma LeftmostKeep(rf: seq<int>, qf: seq<int>, rs: seq<int>, qs: seq<int>, s: (int, int))
    requires LeftmostPair(rf, s.0) && LeftmostPair(qf, s.1)
    ensures Pairs(rf + rs) != 0
    ensures LeftmostPair(rf + rs, s.0) && LeftmostPair(qf + qs, s.1)
  {
    LeftmostExtend(rf, rs, s.0);
    LeftmostExtend(qf, qs, s.1);
    PairsAppend(rf, rs);
    PairsPositive(rf, s.0);
  }

  /** refStartAlnUL/qryStartAlnUL: when the path has a diagonal move, the
    * recorded start is the leftmost reference base and the leftmost query base
    * flagged as a match or SNP; otherwise it is the default. */
  lemma {:induction false} FirstPairIsLeftmost(t: Traceback, i: nat, j: nat, none: (int, int))
    requires Walkable(t) && i <= |t.qry| && j <= |t.ref|
    ensures var s := FirstPair(t, i, j, none);
      if Pairs(RefFlags(t, i, j)) == 0 then s == none
      else LeftmostPair(RefFlags(t, i, j), s.0) && LeftmostPair(QryFlags(t, i, j), s.1)
    decreases i + j
  {
    if DirAt(t, i, j) == MvStop {
      CountFlagConst(j, SoftMaskFlag, SnpFlag);
      CountFlagConst(j, SoftMaskFlag, MatchFlag);
    } else {
      var c := Back(t, i, j);
      var snp := DirAt(t, i, j) == MvSnp;
      var none' := if snp then (j - 1, i - 1) else none;
      var rf, qf := RefFlags(t, c.0, c.1), QryFlags(t, c.0, c.1);
      var rs, qs := RefStep(t, i, j), QryStep(t, i, j);
      FirstPairIsLeftmost(t, c.0, c.1, none');
      PairFlagsAgree(t, c.0, c.1);
      StepCounts(t, i, j);
      LeftmostStep(rf, qf, rs, qs, snp, none, FirstPair(t, c.0, c.1, none'));
    }
  }

  // ---------------------------------------------------------------------------
  // dirMatrixToAln
  // ---------------------------------------------------------------------------

  /** The counters dirMatrixToAln keeps while it walks: lenAlnUL, numInssUL,
    * numDelsUL, numSnpsUL, numMatchesUL and the last match/SNP coordinates. */
  datatype Tally = Tally(lenAln: nat, numIns: nat, numDels: nat, numSnps: nat, numMatches: nat,
                         lastRef: int, lastQry: int)

  /** A cell inside the matrix has its index inside the flat matrix. */
  lemma CellInMatrix(t: Traceback, ref: seq<uchar>, len: nat, i: nat, j: nat)
    requires Walkable(t) && i <= |t.qry| && j <= |t.ref| && t.ref == ref && |t.dirs| == len
    ensures 0 <= i * (|ref| + 1) + j < len
  {
    MulMono(0, i, |t.ref| + 1);
    MulMono(i + 1, |t.qry| + 1, |t.ref| + 1);
  }

  /** The reference flags of the walk at cell (i, j) after starting at
    * (i0, j0): the flags written so far follow the flags of the path still to
    * walk, and every other entry is still 0 from calloc. */
  ghost predicate RefTraced(t: Traceback, i0: nat, j0: nat, i: nat, j: nat, rf: seq<int>)
    requires Walkable(t) && i <= i0 <= |t.qry| && j <= j0 <= |t.ref| && j0 < |rf|
  {
    && RefFlags(t, i0, j0) == RefFlags(t, i, j) + rf[j..j0]
    && (forall k :: 0 <= k < |rf| && !(j <= k < j0) ==> rf[k] == 0)
  }

  /** The query flags of the walk, as RefTraced. */
  ghost predicate QryTraced(t: Traceback, i0: nat, j0: nat, i: nat, j: nat, qf: seq<int>)
    requires Walkable(t) && i <= i0 <= |t.qry| && j <= j0 <= |t.ref| && i0 < |qf|
  {
    && QryFlags(t, i0, j0) == QryFlags(t, i, j) + qf[i..i0]
    && (forall k :: 0 <= k < |qf| && !(i <= k < i0) ==> qf[k] == 0)
  }

  /** The counters hold the counts of the flags written so far. */
  ghost predicate Counted(i0: nat, j0: nat, i: nat, j: nat, rf: seq<int>, qf: seq<int>, n: Tally)
    requires i <= i0 < |qf| && j <= j0 < |rf|
  {
    && n.numIns == CountFlag(qf[i..i0], GapFlag)
    && n.numDels == CountFlag(rf[j..j0], GapFlag)
    && n.numSnps == CountFlag(rf[j..j0], SnpFlag)
    && n.numMatches == CountFlag(rf[j..j0], MatchFlag)
  }

  /** The length counter and the last match/SNP coordinates of the walk. */
  ghost predicate Walked(t: Traceback, i0: nat, j0: nat, i: nat, j: nat, n: Tally)
    requires Walkable(t) && i <= i0 <= |t.qry| && j <= j0 <= |t.ref|
  {
    && PathLen(t, i0, j0) == n.lenAln + PathLen(t, i, j)
    && FirstPair(t, i0, j0, (0, 0)) == FirstPair(t, i, j, (n.lastRef, n.lastQry))
  }

  /** The whole state of the walk. */
  ghost predicate Traced(t: Traceback, i0: nat, j0: nat, i: nat, j: nat,
                         rf: seq<int>, qf: seq<int>, n: Tally)
    requires Walkable(t) && i <= i0 <= |t.qry| && j <= j0 <= |t.ref|
    requires j0 < |rf| && i0 < |qf|
  {
    RefTraced(t, i0, j0, i, j, rf) && QryTraced(t, i0, j0, i, j, qf)
    && Counted(i0, j0, i, j, rf, qf, n) && Walked(t, i0, j0, i, j, n)
  }

  /** The flag array after a move wrote its flag (if any) at `pos`. */
  function Written(s: seq<int>, pos: int, step: seq<int>): seq<int>
    requires |step| <= 1 && (step != [] ==> 0 <= pos < |s|)
  {
    if step == [] then s else s[pos := step[0]]
  }

  /** A move never leaves the matrix: an insertion or match/SNP starts below
    * the gap row, a deletion or match/SNP right of the gap column. */
  lemma MoveInside(t: Traceback, i: nat, j: nat)
    requires Walkable(t) && i <= |t.qry| && j <= |t.ref|
    ensures DirAt(t, i, j) == MvIns ==> i >= 1
    ensures DirAt(t, i, j) == MvSnp ==> i >= 1 && j >= 1
    ensures DirAt(t, i, j) == MvDel ==> j >= 1
  {
    if i == 0 {
      assert DirAt(t, 0, j) != MvIns && DirAt(t, 0, j) != MvSnp;
    }
    if j == 0 {
      assert DirAt(t, i, 0) != MvDel && DirAt(t, i, 0) != MvSnp;
    }
  }

  /** One move of the walk on one flag array: the flags of the path from
    * the start are those of the path still to walk (`rest`) followed by the
    * move's flag (`step`, written at `pos`) and the flags written before. */
  lemma FlagsNext(whole: seq<int>, here: seq<int>, rest: seq<int>, step: seq<int>,
                  f: seq<int>, f': seq<int>, lo: nat, mid: nat, hi: nat)
    requires lo <= mid <= hi < |f| && |step| <= 1 && lo == mid - |step|
    requires whole == here + f[mid..hi] && here == rest + step
    requires forall k :: 0 <= k < |f| && !(mid <= k < hi) ==> f[k] == 0
    requires f' == Written(f, mid - 1, step)
    ensures whole == rest + f'[lo..hi]
    ensures forall k :: 0 <= k < |f'| && !(lo <= k < hi) ==> f'[k] == 0
    ensures f'[lo..hi] == step + f[mid..hi]
  {
    if step == [] {
      assert f' == f;
    } else {
      assert step == [step[0]];
      assert f' == f[mid - 1 := step[0]];
      assert f'[lo..hi] == step + f[mid..hi];
    }
    assert whole == rest + (step + f[mid..hi]);
  }

  /** The counters after one move count the written flags. */
  lemma CountedNext(i0: nat, j0: nat, i: nat, j: nat, i': nat, j': nat,
                    rf: seq<int>, qf: seq<int>, n: Tally, rf': seq<int>, qf': seq<int>, n': Tally,
                    rs: seq<int>, qs: seq<int>)
    requires i' <= i <= i0 < |qf| && j' <= j <= j0 < |rf| && |rf'| == |rf| && |qf'| == |qf|
    requires Counted(i0, j0, i, j, rf, qf, n)
    requires rf'[j'..j0] == rs + rf[j..j0] && qf'[i'..i0] == qs + qf[i..i0]
    requires n'.numIns == n.numIns + CountFlag(qs, GapFlag)
    requires n'.numDels == n.numDels + CountFlag(rs, GapFlag)
    requires n'.numSnps == n.numSnps + CountFlag(rs, SnpFlag)
    requires n'.numMatches == n.numMatches + CountFlag(rs, MatchFlag)
    ensures Counted(i0, j0, i', j', rf', qf', n')
  {
    CountFlagAppend(rs, rf[j..j0], GapFlag);
    CountFlagAppend(rs, rf[j..j0], SnpFlag);
    CountFlagAppend(rs, rf[j..j0], MatchFlag);
    CountFlagAppend(qs, qf[i..i0], GapFlag);
  }

  lemma WalkedNext(t: Traceback, i0: nat, j0: nat, i: nat, j: nat, n: Tally, n': Tally)
    requires Walkable(t) && i <= i0 <= |t.qry| && j <= j0 <= |t.ref|
    requires DirAt(t, i, j) != MvStop
    requires Walked(t, i0, j0, i, j, n)
    requires n'.lenAln == n.lenAln + 1
    requires (n'.lastRef, n'.lastQry)
          == if DirAt(t, i, j) == MvSnp then (j - 1, i - 1) else (n.lastRef, n.lastQry)
    ensures var c := Back(t, i, j); Walked(t, i0, j0, c.0, c.1, n')
  {
  }

  /** One move of the walk keeps the walk state: written on sequences, so
    * that the methods below each need a single call. */
  lemma TracedNext(t: Traceback, i0: nat, j0: nat, i: nat, j: nat, i': nat, j': nat,
                   rf: seq<int>, qf: seq<int>, n: Tally, rf': seq<int>, qf': seq<int>, n': Tally)
    requires Walkable(t) && i <= i0 <= |t.qry| && j <= j0 <= |t.ref| && j0 < |rf| && i0 < |qf|
    requires DirAt(t, i, j) != MvStop && (i', j') == Back(t, i, j)
    requires Traced(t, i0, j0, i, j, rf, qf, n)
    requires rf' == Written(rf, j - 1, RefStep(t, i, j))
    requires qf' == Written(qf, i - 1, QryStep(t, i, j))
    requires n'.lenAln == n.lenAln + 1
    requires n'.numIns == n.numIns + CountFlag(QryStep(t, i, j), GapFlag)
    requires n'.numDels == n.numDels + CountFlag(RefStep(t, i, j), GapFlag)
    requires n'.numSnps == n.numSnps + CountFlag(RefStep(t, i, j), SnpFlag)
    requires n'.numMatches == n.numMatches + CountFlag(RefStep(t, i, j), MatchFlag)
    requires (n'.lastRef, n'.lastQry)
          == if DirAt(t, i, j) == MvSnp then (j - 1, i - 1) else (n.lastRef, n.lastQry)
    ensures Traced(t, i0, j0, i', j', rf', qf', n')
  {
    var rs, qs := RefStep(t, i, j), QryStep(t, i, j);
    FlagsNext(RefFlags(t, i0, j0), RefFlags(t, i, j), RefFlags(t, i', j'), rs, rf, rf', j', j, j0);
    FlagsNext(QryFlags(t, i0, j0), QryFlags(t, i, j), QryFlags(t, i', j'), qs, qf, qf', i', i, i0);
    CountedNext(i0, j0, i, j, i', j', rf, qf, n, rf', qf', n', rs, qs);
    WalkedNext(t, i0, j0, i, j, n, n');
  }

  /** Cell (i, j) of a row-major matrix of width r + 1 is r + 1 cells after
    * cell (i - 1, j). */
  lemma RowBack(i: nat, j: nat, r: nat, index: nat)
    requires i >= 1 && index == i * (r + 1) + j
    ensures r + 1 <= index && index - (r + 1) == (i - 1) * (r + 1) + j
  {
    assert i * (r + 1) == (i - 1) * (r + 1) + (r + 1);
    MulMono(0, i - 1, r + 1);
  }

  /** ... and cell (i, j) is r + 2 cells after cell (i - 1, j - 1). */
  lemma DiagBack(i: nat, j: nat, r: nat, index: nat)
    requires i >= 1 && j >= 1 && index == i * (r + 1) + j
    ensures r + 2 <= index && index - (r + 2) == (i - 1) * (r + 1) + (j - 1)
  {
    RowBack(i, j, r, index);
  }

  /** ... and cell (i, j) is one cell after cell (i, j - 1). */
  lemma ColBack(i: nat, j: nat, r: nat, index: nat)
    requires j >= 1 && index == i * (r + 1) + j
    ensures 1 <= index && index - 1 == i * (r + 1) + (j - 1)
  {
  }

  /** The walk at cell (i, j), on values: the cell's index in the flat
    * matrix and the flags and counters written since the start (i0, j0). */
  ghost predicate WalkState(t: Traceback, i0: nat, j0: nat, i: nat, j: nat, index: nat,
                            rf: seq<int>, qf: seq<int>, n: Tally)
  {
    && Walkable(t) && i <= i0 <= |t.qry| && j <= j0 <= |t.ref| && j0 < |rf| && i0 < |qf|
    && index == i * (|t.ref| + 1) + j && index < |t.dirs|
    && Traced(t, i0, j0, i, j, rf, qf, n)
  }

  /** The state of the traceback loop at cell (i, j): the walk state over the
    * matrix, the flag arrays and the match table it reads. */
  ghost predicate Walking(dirMatrix: array<int>, refAln: array<int>, qryAln: array<int>, alnSet: AlnSet,
                          qry: seq<uchar>, ref: seq<uchar>, i0: nat, j0: nat, i: nat, j: nat, index: nat,
                          n: Tally, t: Traceback)
    reads dirMatrix, refAln, qryAln, alnSet, alnSet.matchMatrix
  {
    && alnSet.Valid() && refAln != qryAln && dirMatrix != refAln && dirMatrix != qryAln
    && t == Traceback(dirMatrix[..], qry, ref, alnSet.MatchRows())
    && WalkState(t, i0, j0, i, j, index, refAln[..], qryAln[..], n)
  }

  /** An insertion from (i, j) flags query base i - 1 as a gap and moves
    * lenRef + 1 cells back. */
  lemma WalkInsNext(t: Traceback, i0: nat, j0: nat, i: nat, j: nat, index: nat,
                    rf: seq<int>, qf: seq<int>, n: Tally, w: nat)
    requires WalkState(t, i0, j0, i, j, index, rf, qf, n) && DirAt(t, i, j) == MvIns
    requires w == |t.ref| + 1
    ensures 1 <= i && w <= index
    ensures WalkState(t, i0, j0, i - 1, j, index - w, rf, qf[i - 1 := GapFlag],
                      n.(lenAln := n.lenAln + 1, numIns := n.numIns + 1))
  {
    MoveInside(t, i, j);
    RowBack(i, j, |t.ref|, index);
    TracedIns(t, i0, j0, i, j, rf, qf, n);
  }

  /** An insertion step keeps the trace: the query gets a gap at i - 1. */
  lemma TracedIns(t: Traceback, i0: nat, j0: nat, i: nat, j: nat, rf: seq<int>, qf: seq<int>, n: Tally)
    requires Walkable(t) && 1 <= i <= i0 <= |t.qry| && j <= j0 <= |t.ref| && j0 < |rf| && i0 < |qf|
    requires DirAt(t, i, j) == MvIns && Traced(t, i0, j0, i, j, rf, qf, n)
    ensures Traced(t, i0, j0, i - 1, j, rf, qf[i - 1 := GapFlag],
                   n.(lenAln := n.lenAln + 1, numIns := n.numIns + 1))
  {
    TracedNext(t, i0, j0, i, j, i - 1, j, rf, qf, n, rf, qf[i - 1 := GapFlag],
               n.(lenAln := n.lenAln + 1, numIns := n.numIns + 1));
  }

  /** A one-flag sequence counts its flag once. */
  lemma CountOne(f: int, g: int)
    ensures CountFlag([f], g) == if f == g then 1 else 0
  {
    assert [f][..0] == [];
  }

  /** A diagonal move leaves the pair's flag on both sides. */
  lemma SnpSteps(t: Traceback, i: nat, j: nat, f: int)
    requires Walkable(t) && 1 <= i <= |t.qry| && 1 <= j <= |t.ref| && DirAt(t, i, j) == MvSnp
    requires f == PairFlag(t, i, j)
    ensures RefStep(t, i, j) == [f] && QryStep(t, i, j) == [f] && Back(t, i, j) == (i - 1, j - 1)
  {
  }

  /** A match/SNP from (i, j) flags both bases with the pair's flag, records
    * them as the last match/SNP and moves lenRef + 2 cells back. */
  lemma WalkSnpNext(t: Traceback, i0: nat, j0: nat, i: nat, j: nat, index: nat,
                    rf: seq<int>, qf: seq<int>, n: Tally, w: nat, f: int)
    requires WalkState(t, i0, j0, i, j, index, rf, qf, n) && DirAt(t, i, j) == MvSnp
    requires w == |t.ref| + 2 && 1 <= i && 1 <= j && f == PairFlag(t, i, j)
    ensures w <= index
    ensures WalkState(t, i0, j0, i - 1, j - 1, index - w, rf[j - 1 := f], qf[i - 1 := f],
                      n.(lenAln := n.lenAln + 1,
                         numMatches := n.numMatches + (if f == MatchFlag then 1 else 0),
                         numSnps := n.numSnps + (if f == SnpFlag then 1 else 0),
                         lastRef := j - 1, lastQry := i - 1))
  {
    DiagBack(i, j, |t.ref|, index);
    TracedSnp(t, i0, j0, i, j, rf, qf, n, f);
  }

  /** A match/SNP step keeps the trace: both sequences get the pair flag. */
  lemma TracedSnp(t: Traceback, i0: nat, j0: nat, i: nat, j: nat, rf: seq<int>, qf: seq<int>, n: Tally, f: int)
    requires Walkable(t) && 1 <= i <= i0 <= |t.qry| && 1 <= j <= j0 <= |t.ref| && j0 < |rf| && i0 < |qf|
    requires DirAt(t, i, j) == MvSnp && f == PairFlag(t, i, j) && Traced(t, i0, j0, i, j, rf, qf, n)
    ensures Traced(t, i0, j0, i - 1, j - 1, rf[j - 1 := f], qf[i - 1 := f],
                   n.(lenAln := n.lenAln + 1,
                      numMatches := n.numMatches + (if f == MatchFlag then 1 else 0),
                      numSnps := n.numSnps + (if f == SnpFlag then 1 else 0),
                      lastRef := j - 1, lastQry := i - 1))
  {
    SnpSteps(t, i, j, f);
    CountOne(f, GapFlag);
    CountOne(f, SnpFlag);
    CountOne(f, MatchFlag);
    TracedNext(t, i0, j0, i, j, i - 1, j - 1, rf, qf, n, rf[j - 1 := f], qf[i - 1 := f],
               n.(lenAln := n.lenAln + 1,
                  numMatches := n.numMatches + (if f == MatchFlag then 1 else 0),
                  numSnps := n.numSnps + (if f == SnpFlag then 1 else 0),
                  lastRef := j - 1, lastQry := i - 1));
  }

  /** A deletion from (i, j) flags reference base j - 1 as a gap and moves
    * one cell back. */
  lemma WalkDelNext(t: Traceback, i0: nat, j0: nat, i: nat, j: nat, index: nat,
                    rf: seq<int>, qf: seq<int>, n: Tally)
    requires WalkState(t, i0, j0, i, j, index, rf, qf, n) && DirAt(t, i, j) == MvDel
    ensures 1 <= j && 1 <= index
    ensures WalkState(t, i0, j0, i, j - 1, index - 1, rf[j - 1 := GapFlag], qf,
                      n.(lenAln := n.lenAln + 1, numDels := n.numDels + 1))
  {
    MoveInside(t, i, j);
    ColBack(i, j, |t.ref|, index);
    TracedDel(t, i0, j0, i, j, rf, qf, n);
  }

  /** A deletion step keeps the trace: the reference gets a gap at j - 1. */
  lemma TracedDel(t: Traceback, i0: nat, j0: nat, i: nat, j: nat, rf: seq<int>, qf: seq<int>, n: Tally)
    requires Walkable(t) && i <= i0 <= |t.qry| && 1 <= j <= j0 <= |t.ref| && j0 < |rf| && i0 < |qf|
    requires DirAt(t, i, j) == MvDel && Traced(t, i0, j0, i, j, rf, qf, n)
    ensures Traced(t, i0, j0, i, j - 1, rf[j - 1 := GapFlag], qf,
                   n.(lenAln := n.lenAln + 1, numDels := n.numDels + 1))
  {
    TracedNext(t, i0, j0, i, j, i, j - 1, rf, qf, n, rf[j - 1 := GapFlag], qf,
               n.(lenAln := n.lenAln + 1, numDels := n.numDels + 1));
  }

  /** The pair flag of a cell is the match matrix's verdict on its two bases. */
  lemma PairFlagLookup(alnSet: AlnSet, t: Traceback, i: nat, j: nat)
    requires alnSet.Valid() && t.matches == alnSet.MatchRows() && IsIndexSeq(t.qry) && IsIndexSeq(t.ref)
    requires 1 <= i <= |t.qry| && 1 <= j <= |t.ref|
    ensures PairFlag(t, i, j)
            == if alnSet.MatchOrSnp(t.qry[i - 1], t.ref[j - 1]) != 0 then MatchFlag else SnpFlag
  {
  }

  /** The walk state of the flag arrays' new contents is the walk over the
    * arrays themselves. */
  lemma WalkingAfter(dirMatrix: array<int>, refAln: array<int>, qryAln: array<int>, alnSet: AlnSet,
                     qry: seq<uchar>, ref: seq<uchar>, i0: nat, j0: nat, i: nat, j: nat, index: nat,
                     n: Tally, t: Traceback, rf: seq<int>, qf: seq<int>)
    requires alnSet.Valid() && refAln != qryAln && dirMatrix != refAln && dirMatrix != qryAln
    requires t == Traceback(dirMatrix[..], qry, ref, alnSet.MatchRows())
    requires refAln[..] == rf && qryAln[..] == qf
    requires WalkState(t, i0, j0, i, j, index, rf, qf, n)
    ensures Walking(dirMatrix, refAln, qryAln, alnSet, qry, ref, i0, j0, i, j, index, n, t)
  {
  }

  /** Case defMvIns of the traceback loop: the query base is flagged as a
    * gap and the walk moves up a row (lenRef + 1 cells back). */
  method TraceIns(dirMatrix: array<int>, refAln: array<int>, qryAln: array<int>, alnSet: AlnSet,
                  qry: seq<uchar>, ref: seq<uchar>, i0: nat, j0: nat, i: nat, j: nat, index: nat,
                  n: Tally, ghost t: Traceback)
    returns (i': nat, j': nat, index': nat, n': Tally)
    requires Walking(dirMatrix, refAln, qryAln, alnSet, qry, ref, i0, j0, i, j, index, n, t)
    requires DirAt(t, i, j) == MvIns
    modifies qryAln
    ensures (i', j') == Back(t, i, j)
    ensures Walking(dirMatrix, refAln, qryAln, alnSet, qry, ref, i0, j0, i', j', index', n', t)
  {
    ghost var rf, qf := refAln[..], qryAln[..];
    WalkInsNext(t, i0, j0, i, j, index, rf, qf, n, |ref| + 1);
    i', j', index' := i - 1, j, index - (|ref| + 1);
    n' := n.(lenAln := n.lenAln + 1, numIns := n.numIns + 1);
    qryAln[i - 1] := GapFlag;
    assert refAln[..] == rf && qryAln[..] == qf[i - 1 := GapFlag];
    WalkingAfter(dirMatrix, refAln, qryAln, alnSet, qry, ref, i0, j0, i', j', index', n', t, rf, qf[i - 1 := GapFlag]);
  }

  /** Case defMvSnp: both bases are flagged as a match when matchOrSnp calls
    * them one and as a SNP otherwise, the coordinates are kept as the last
    * match/SNP, and the walk moves diagonally (lenRef + 2 cells back). */
  method TraceSnp(dirMatrix: array<int>, refAln: array<int>, qryAln: array<int>, alnSet: AlnSet,
                  qry: seq<uchar>, ref: seq<uchar>, i0: nat, j0: nat, i: nat, j: nat, index: nat,
                  n: Tally, ghost t: Traceback)
    returns (i': nat, j': nat, index': nat, n': Tally)
    requires Walking(dirMatrix, refAln, qryAln, alnSet, qry, ref, i0, j0, i, j, index, n, t)
    requires DirAt(t, i, j) == MvSnp
    modifies refAln, qryAln
    ensures (i', j') == Back(t, i, j)
    ensures Walking(dirMatrix, refAln, qryAln, alnSet, qry, ref, i0, j0, i', j', index', n', t)
  {
    ghost var rf, qf := refAln[..], qryAln[..];
    MoveInside(t, i, j);
    var f := if alnSet.MatchOrSnp(qry[i - 1], ref[j - 1]) != 0 then MatchFlag else SnpFlag;
    PairFlagLookup(alnSet, t, i, j);
    WalkSnpNext(t, i0, j0, i, j, index, rf, qf, n, |ref| + 2, f);
    i', j', index' := i - 1, j - 1, index - (|ref| + 2);
    n' := n.(lenAln := n.lenAln + 1,
             numMatches := n.numMatches + (if f == MatchFlag then 1 else 0),
             numSnps := n.numSnps + (if f == SnpFlag then 1 else 0),
             lastRef := j - 1, lastQry := i - 1);
    qryAln[i - 1] := f;
    refAln[j - 1] := f;
    assert refAln[..] == rf[j - 1 := f] && qryAln[..] == qf[i - 1 := f];
    WalkingAfter(dirMatrix, refAln, qryAln, alnSet, qry, ref, i0, j0, i', j', index', n', t,
                 rf[j - 1 := f], qf[i - 1 := f]);
  }

  /** Case defMvDel: the reference base is flagged as a gap and the walk
    * moves left (1 cell back). */
  method TraceDel(dirMatrix: array<int>, refAln: array<int>, qryAln: array<int>, alnSet: AlnSet,
                  qry: seq<uchar>, ref: seq<uchar>, i0: nat, j0: nat, i: nat, j: nat, index: nat,
                  n: Tally, ghost t: Traceback)
    returns (i': nat, j': nat, index': nat, n': Tally)
    requires Walking(dirMatrix, refAln, qryAln, alnSet, qry, ref, i0, j0, i, j, index, n, t)
    requires DirAt(t, i, j) == MvDel
    modifies refAln
    ensures (i', j') == Back(t, i, j)
    ensures Walking(dirMatrix, refAln, qryAln, alnSet, qry, ref, i0, j0, i', j', index', n', t)
  {
    ghost var rf, qf := refAln[..], qryAln[..];
    WalkDelNext(t, i0, j0, i, j, index, rf, qf, n);
    i', j', index' := i, j - 1, index - 1;
    n' := n.(lenAln := n.lenAln + 1, numDels := n.numDels + 1);
    refAln[j - 1] := GapFlag;
    assert refAln[..] == rf[j - 1 := GapFlag] && qryAln[..] == qf;
    WalkingAfter(dirMatrix, refAln, qryAln, alnSet, qry, ref, i0, j0, i', j', index', n', t, rf[j - 1 := GapFlag], qf);
  }

  /** The cell at `index` of the flat matrix is cell (i, j). */
  lemma DirAtIndex(t: Traceback, dirs: seq<int>, ref: seq<uchar>, i: nat, j: nat, index: nat)
    requires t.dirs == dirs && t.ref == ref
    requires index == i * (|ref| + 1) + j && index < |dirs|
    ensures dirs[index] == DirAt(t, i, j)
  {
  }

  /** One pass of the traceback loop: the switch on the cell's direction. */
  method TraceStep(dirMatrix: array<int>, refAln: array<int>, qryAln: array<int>, alnSet: AlnSet,
                   qry: seq<uchar>, ref: seq<uchar>, i0: nat, j0: nat, i: nat, j: nat, index: nat,
                   n: Tally, ghost t: Traceback)
    returns (i': nat, j': nat, index': nat, n': Tally)
    requires Walking(dirMatrix, refAln, qryAln, alnSet, qry, ref, i0, j0, i, j, index, n, t)
    requires dirMatrix[index] != MvStop
    modifies refAln, qryAln
    ensures i' + j' < i + j
    ensures Walking(dirMatrix, refAln, qryAln, alnSet, qry, ref, i0, j0, i', j', index', n', t)
  {
    DirAtIndex(t, dirMatrix[..], ref, i, j, index);
    var d := dirMatrix[index];
    if d == MvIns {
      i', j', index', n' := TraceIns(dirMatrix, refAln, qryAln, alnSet, qry, ref, i0, j0, i, j, index, n, t);
    } else if d == MvSnp {
      i', j', index', n' := TraceSnp(dirMatrix, refAln, qryAln, alnSet, qry, ref, i0, j0, i, j, index, n, t);
    } else {
      i', j', index', n' := TraceDel(dirMatrix, refAln, qryAln, alnSet, qry, ref, i0, j0, i, j, index, n, t);
    }
  }

  /** Before the first move the walk has written nothing. */
  lemma TracedStart(t: Traceback, i0: nat, j0: nat, rf: seq<int>, qf: seq<int>)
    requires Walkable(t) && i0 <= |t.qry| && j0 <= |t.ref| && j0 < |rf| && i0 < |qf|
    requires forall k :: 0 <= k < |rf| ==> rf[k] == 0
    requires forall k :: 0 <= k < |qf| ==> qf[k] == 0
    ensures Traced(t, i0, j0, i0, j0, rf, qf, Tally(0, 0, 0, 0, 0, 0, 0))
  {
    assert rf[j0..j0] == [] && qf[i0..i0] == [];
    assert RefFlags(t, i0, j0) + [] == RefFlags(t, i0, j0);
    assert QryFlags(t, i0, j0) + [] == QryFlags(t, i0, j0);
  }

  /** The traceback loop of dirMatrixToAln (Fun-05 Sec-04): from cell
    * (i0, j0) it follows the directions to the first defMvStop cell, flagging
    * bases and counting moves on the way. */
  method TraceBack(dirMatrix: array<int>, refAln: array<int>, qryAln: array<int>, alnSet: AlnSet,
                   qry: seq<uchar>, ref: seq<uchar>, i0: nat, j0: nat, ghost t: Traceback)
    returns (i: nat, j: nat, n: Tally)
    requires alnSet.Valid() && refAln != qryAln && dirMatrix != refAln && dirMatrix != qryAln
    requires t == Traceback(dirMatrix[..], qry, ref, alnSet.MatchRows()) && Walkable(t)
    requires i0 <= |qry| && j0 <= |ref| && j0 < refAln.Length && i0 < qryAln.Length
    requires forall k :: 0 <= k < refAln.Length ==> refAln[k] == 0
    requires forall k :: 0 <= k < qryAln.Length ==> qryAln[k] == 0
    modifies refAln, qryAln
    ensures i <= i0 && j <= j0 && DirAt(t, i, j) == MvStop
    ensures Traced(t, i0, j0, i, j, refAln[..], qryAln[..], n)
  {
    CellInMatrix(t, ref, dirMatrix.Length, i0, j0);
    var index: nat := i0 * (|ref| + 1) + j0;
    i, j := i0, j0;
    n := Tally(0, 0, 0, 0, 0, 0, 0);
    TracedStart(t, i0, j0, refAln[..], qryAln[..]);
    while dirMatrix[index] != MvStop
      invariant Walking(dirMatrix, refAln, qryAln, alnSet, qry, ref, i0, j0, i, j, index, n, t)
      decreases i + j
    {
      i, j, index, n := TraceStep(dirMatrix, refAln, qryAln, alnSet, qry, ref, i0, j0, i, j, index, n, t);
    }
    DirAtIndex(t, dirMatrix[..], ref, i, j, index);
  }

  /** Fun-05 Sec-05 Sub-01: the bases before the stop cell, from `pos` - 1
    * down to 0 (until the unsigned position wraps), become soft masked. */
  method MaskHead(aln: array<int>, pos: nat)
    requires pos <= aln.Length
    modifies aln
    ensures forall k :: 0 <= k < pos ==> aln[k] == SoftMaskFlag
    ensures forall k :: pos <= k < aln.Length ==> aln[k] == old(aln[k])
  {
    var p: int := pos - 1;
    while p >= 0
      invariant -1 <= p < pos
      invariant forall k :: p < k < pos ==> aln[k] == SoftMaskFlag
      invariant forall k :: pos <= k < aln.Length ==> aln[k] == old(aln[k])
    {
      aln[p] := SoftMaskFlag;
      p := p - 1;
    }
  }

  /** Fun-05 Sec-05 Sub-02: from the last base back, entries still 0 from
    * calloc become soft masked; the walk stops at the first flagged base,
    * which the caller guarantees at `stop` - 1. */
  method MaskTail(aln: array<int>, stop: nat, len: nat)
    requires 1 <= stop <= len < aln.Length
    requires aln[stop - 1] != 0
    requires forall k :: stop <= k < len ==> aln[k] == 0
    modifies aln
    ensures forall k :: stop <= k < len ==> aln[k] == SoftMaskFlag
    ensures forall k :: 0 <= k < aln.Length && !(stop <= k < len) ==> aln[k] == old(aln[k])
  {
    var p := len - 1;
    while aln[p] == 0
      invariant stop - 1 <= p < len
      invariant forall k :: p < k < len ==> aln[k] == SoftMaskFlag
      invariant forall k :: stop <= k <= p ==> aln[k] == 0
      invariant forall k :: 0 <= k < aln.Length && !(p < k < len) ==> aln[k] == old(aln[k])
      decreases p
    {
      aln[p] := SoftMaskFlag;
      p := p - 1;
    }
  }

  /** Fun-05 Sec-05 for one flag array: after the walk stopped at `stop` with
    * the path's flags in place, the bases before the path and after its
    * start cell `end` are soft masked and the end flag closes the array at
    * the sequence length `len`. */
  method FinishFlags(aln: array<int>, stop: nat, end: nat, len: nat, ghost flags: seq<int>)
    requires stop <= end <= len && 1 <= end && aln.Length == len + 1
    requires flags == seq(stop, _ => SoftMaskFlag) + aln[stop..end]
    requires forall k :: 0 <= k < end ==> 1 <= flags[k] <= 4
    requires forall k :: 0 <= k < aln.Length && !(stop <= k < end) ==> aln[k] == 0
    modifies aln
    ensures aln[..] == Closed(flags, len)
  {
    MaskHead(aln, stop);
    assert forall k :: 0 <= k < end ==> aln[k] == flags[k];
    MaskTail(aln, end, len);
    aln[len] := EndAlnFlag;
    assert forall k :: 0 <= k < aln.Length ==> aln[k] == Closed(flags, len)[k];
  }

  /** The reference and query windows of the matrix lie inside the sequences. */
  ghost predicate WindowsFit(m: AlnMatrix, refSeq: seq<uchar>, qrySeq: seq<uchar>)
    reads m
  {
    && 0 <= m.refOffset && 0 <= m.lenRef && m.refOffset + m.lenRef <= |refSeq|
    && 0 <= m.qryOffset && 0 <= m.lenQry && m.qryOffset + m.lenQry <= |qrySeq|
  }

  /** The traceback dirMatrixToAln walks: the direction matrix over the
    * aligned windows of the two sequences, and the match table of alnSet. */
  ghost function MatrixTrace(m: AlnMatrix, refSeq: seq<uchar>, qrySeq: seq<uchar>, alnSet: AlnSet): (t: Traceback)
    reads m, m.dirMatrix, alnSet, alnSet.matchMatrix
    requires m.dirMatrix != null && alnSet.Valid() && WindowsFit(m, refSeq, qrySeq)
    ensures |t.ref| == m.lenRef && |t.qry| == m.lenQry
  {
    Traceback(m.dirMatrix[..], qrySeq[m.qryOffset..m.qryOffset + m.lenQry],
              refSeq[m.refOffset..m.refOffset + m.lenRef], alnSet.MatchRows())
  }

  /** The flag array dirMatrixToAln leaves for one sequence of length `len`
    * whose path flags are `flags`: soft masks after the path, then the end
    * flag. */
  function Closed(flags: seq<int>, len: nat): (s: seq<int>)
    requires |flags| <= len
    ensures |s| == len + 1
  {
    flags + seq(len - |flags|, _ => SoftMaskFlag) + [EndAlnFlag]
  }

  /** The state of a finished walk: the path flags as FinishFlags takes
    * them, and the counters as the path's own counts. */
  lemma StopFlags(t: Traceback, i0: nat, j0: nat, i: nat, j: nat, rf: seq<int>, qf: seq<int>, n: Tally)
    requires Walkable(t) && i <= i0 <= |t.qry| && j <= j0 <= |t.ref| && j0 < |rf| && i0 < |qf|
    requires DirAt(t, i, j) == MvStop && Traced(t, i0, j0, i, j, rf, qf, n)
    ensures RefFlags(t, i0, j0) == seq(j, _ => SoftMaskFlag) + rf[j..j0]
    ensures QryFlags(t, i0, j0) == seq(i, _ => SoftMaskFlag) + qf[i..i0]
    ensures forall k :: 0 <= k < j0 ==> 1 <= RefFlags(t, i0, j0)[k] <= 4
    ensures forall k :: 0 <= k < i0 ==> 1 <= QryFlags(t, i0, j0)[k] <= 4
    ensures n == Tally(PathLen(t, i0, j0),
                       CountFlag(QryFlags(t, i0, j0), GapFlag), CountFlag(RefFlags(t, i0, j0), GapFlag),
                       CountFlag(RefFlags(t, i0, j0), SnpFlag), CountFlag(RefFlags(t, i0, j0), MatchFlag),
                       FirstPair(t, i0, j0, (0, 0)).0, FirstPair(t, i0, j0, (0, 0)).1)
  {
    FlagsAreSet(t, i0, j0);
    CountFlagConst(i, SoftMaskFlag, GapFlag);
    CountFlagConst(j, SoftMaskFlag, GapFlag);
    CountFlagConst(j, SoftMaskFlag, SnpFlag);
    CountFlagConst(j, SoftMaskFlag, MatchFlag);
    CountFlagAppend(seq(i, _ => SoftMaskFlag), qf[i..i0], GapFlag);
    CountFlagAppend(seq(j, _ => SoftMaskFlag), rf[j..j0], GapFlag);
    CountFlagAppend(seq(j, _ => SoftMaskFlag), rf[j..j0], SnpFlag);
    CountFlagAppend(seq(j, _ => SoftMaskFlag), rf[j..j0], MatchFlag);
  }

  /** Fun-05 Sec-04 and Sec-05 on fresh calloc'd flag arrays: the walk from
    * cell (i0, j0), then the soft masks and end flags. */
  method WalkAndClose(dirMatrix: array<int>, refAln: array<int>, qryAln: array<int>, alnSet: AlnSet,
                      qry: seq<uchar>, ref: seq<uchar>, i0: nat, j0: nat, ghost t: Traceback)
    returns (n: Tally)
    requires alnSet.Valid() && refAln != qryAln && dirMatrix != refAln && dirMatrix != qryAln
    requires t == Traceback(dirMatrix[..], qry, ref, alnSet.MatchRows()) && Walkable(t)
    requires 1 <= i0 <= |qry| && 1 <= j0 <= |ref| && j0 < refAln.Length && i0 < qryAln.Length
    requires forall k :: 0 <= k < refAln.Length ==> refAln[k] == 0
    requires forall k :: 0 <= k < qryAln.Length ==> qryAln[k] == 0
    modifies refAln, qryAln
    ensures refAln[..] == Closed(RefFlags(t, i0, j0), refAln.Length - 1)
    ensures qryAln[..] == Closed(QryFlags(t, i0, j0), qryAln.Length - 1)
    ensures n == Tally(PathLen(t, i0, j0),
                       CountFlag(QryFlags(t, i0, j0), GapFlag), CountFlag(RefFlags(t, i0, j0), GapFlag),
                       CountFlag(RefFlags(t, i0, j0), SnpFlag), CountFlag(RefFlags(t, i0, j0), MatchFlag),
                       FirstPair(t, i0, j0, (0, 0)).0, FirstPair(t, i0, j0, (0, 0)).1)
  {
    var i, j;
    i, j, n := TraceBack(dirMatrix, refAln, qryAln, alnSet, qry, ref, i0, j0, t);
    StopFlags(t, i0, j0, i, j, refAln[..], qryAln[..], n);
    FinishFlags(refAln, j, j0, refAln.Length - 1, RefFlags(t, i0, j0));
    FinishFlags(qryAln, i, i0, qryAln.Length - 1, QryFlags(t, i0, j0));
  }

  /** indexToCoord of a cell off the gap row and gap column: the 0-based
    * reference and query positions are one less than the column and row. */
  lemma StartCoord(lenRef: nat, index: nat)
    requires index < ULongMod && 1 <= index / (lenRef + 1) && 1 <= index % (lenRef + 1)
    ensures IndexToRef(lenRef, index) == index % (lenRef + 1) - 1
    ensures IndexToQry(lenRef, index) == index / (lenRef + 1) - 1
  {
    var w := lenRef + 1;
    assert index == (index / w) * w + index % w;
    IndexToCoordOfCell(lenRef, index / w, index % w);
  }

  /** The alnStruct dirMatrixToAln returns for the walk from cell (i0, j0)
    * of t: the flag arrays of the path closed at the sequence lengths, the
    * lengths and end coordinates it was given, the first match/SNP as the
    * start, and the path's length and counts. */
  function TraceView(t: Traceback, i0: nat, j0: nat, refLen: nat, qryLen: nat,
                     refEnd: int, qryEnd: int): (v: AlnView)
    requires Walkable(t) && i0 <= |t.qry| && j0 <= |t.ref| && j0 <= refLen && i0 <= qryLen
  {
    var start := FirstPair(t, i0, j0, (0, 0));
    AlnView(Closed(RefFlags(t, i0, j0), refLen), Closed(QryFlags(t, i0, j0), qryLen),
            refLen, qryLen, start.0, refEnd, start.1, qryEnd, PathLen(t, i0, j0),
            CountFlag(QryFlags(t, i0, j0), GapFlag), CountFlag(RefFlags(t, i0, j0), GapFlag),
            CountFlag(RefFlags(t, i0, j0), SnpFlag), CountFlag(RefFlags(t, i0, j0), MatchFlag))
  }

  /** Fun-05 Sec-03 to Sec-05 once the start cell (i0, j0) is known: fresh
    * zeroed flag arrays for the whole sequences, the walk, the masks, and the
    * structure holding the result. */
  method BuildAln(dirMatrix: array<int>, alnSet: AlnSet, qry: seq<uchar>, ref: seq<uchar>,
                  qryLen: nat, refLen: nat, qryEnd: int, refEnd: int, i0: nat, j0: nat, ghost t: Traceback)
    returns (a: AlnStruct)
    requires alnSet.Valid() && t == Traceback(dirMatrix[..], qry, ref, alnSet.MatchRows()) && Walkable(t)
    requires 1 <= i0 <= |qry| <= qryLen && 1 <= j0 <= |ref| <= refLen
    ensures fresh(a) && a.refAln != null && a.qryAln != null && fresh(a.refAln) && fresh(a.qryAln)
    ensures a.View() == TraceView(t, i0, j0, refLen, qryLen, refEnd, qryEnd)
  {
    var refAln := new int[refLen + 1](_ => 0);
    var qryAln := new int[qryLen + 1](_ => 0);
    var n := WalkAndClose(dirMatrix, refAln, qryAln, alnSet, qry, ref, i0, j0, t);
    ghost var rf, qf := refAln[..], qryAln[..];
    a := new AlnStruct.Filled(refAln, qryAln, refLen, qryLen, refEnd, qryEnd, n);
    assert a.refAln[..] == rf && a.qryAln[..] == qf;
  }

  /** Fun-05 Sec-03 to Sec-05 from index 0, which waterAln reports when no
    * cell scores above 0: indexToCoord reads index 0 as base 0 of both
    * sequences and the stop in cell 0 ends the walk at once, so the start-mask
    * loops flag base 0 and the end-mask loops every base after it. The result
    * aligns nothing: every base is soft masked. */
  method BuildUnaligned(refLen: nat, qryLen: nat, refEnd: int, qryEnd: int) returns (a: AlnStruct)
    requires 1 <= refLen && 1 <= qryLen
    ensures fresh(a) && a.refAln != null && a.qryAln != null && fresh(a.refAln) && fresh(a.qryAln)
    ensures a.View() == AlnView(seq(refLen, _ => SoftMaskFlag) + [EndAlnFlag], seq(qryLen, _ => SoftMaskFlag) + [EndAlnFlag],
                                refLen, qryLen, 0, refEnd, 0, qryEnd, 0, 0, 0, 0, 0)
  {
    var refAln := new int[refLen + 1](_ => 0);
    var qryAln := new int[qryLen + 1](_ => 0);
    FinishFlags(refAln, 1, 1, refLen, [SoftMaskFlag]);
    FinishFlags(qryAln, 1, 1, qryLen, [SoftMaskFlag]);
    assert refAln[..] == seq(refLen, _ => SoftMaskFlag) + [EndAlnFlag];
    assert qryAln[..] == seq(qryLen, _ => SoftMaskFlag) + [EndAlnFlag];
    a := new AlnStruct.Filled(refAln, qryAln, refLen, qryLen, refEnd, qryEnd, Tally(0, 0, 0, 0, 0, 0, 0));
  }

  /** Starting at the corner cell, which every walkable matrix holds as a
    * stop, the traceback aligns nothing. */
  lemma CornerView(t: Traceback, refLen: nat, qryLen: nat, refEnd: int, qryEnd: int)
    requires Walkable(t)
    ensures TraceView(t, 0, 0, refLen, qryLen, refEnd, qryEnd)
            == AlnView(seq(refLen, _ => SoftMaskFlag) + [EndAlnFlag], seq(qryLen, _ => SoftMaskFlag) + [EndAlnFlag],
                       refLen, qryLen, 0, refEnd, 0, qryEnd, 0, 0, 0, 0, 0)
  {
    assert DirAt(t, 0, 0) == MvStop;
    assert RefFlags(t, 0, 0) == [] && QryFlags(t, 0, 0) == [];
  }

  /** dirMatrixToAln (Fun-05): the traceback from cell `index` of the
    * direction matrix into a fresh alnStruct. `allocFails` stands for any of
    * the callocs returning 0, in which case no structure is returned. */
  method DirMatrixToAln(refSeq: seq<uchar>, qrySeq: seq<uchar>, index: nat, alnSet: AlnSet,
                        m: AlnMatrix, allocFails: bool)
    returns (a: AlnStruct?)
    requires alnSet.Valid() && m.dirMatrix != null && WindowsFit(m, refSeq, qrySeq)
    requires Walkable(MatrixTrace(m, refSeq, qrySeq, alnSet))
    requires index < ULongMod && 1 <= m.lenRef && 1 <= m.lenQry
    requires index == 0 || (1 <= index / (m.lenRef + 1) <= m.lenQry && 1 <= index % (m.lenRef + 1))
    ensures allocFails <==> a == null
    ensures a != null ==>
      && fresh(a) && a.refAln != null && a.qryAln != null && fresh(a.refAln) && fresh(a.qryAln)
      && a.View() == old(TraceView(MatrixTrace(m, refSeq, qrySeq, alnSet), index / (m.lenRef + 1),
                                   index % (m.lenRef + 1), |refSeq|, |qrySeq|,
                                   IndexToRef(m.lenRef, index) + m.refOffset, IndexToQry(m.lenRef, index) + m.qryOffset))
  {
    if allocFails {
      return null;
    }
    if index == 0 {
      CornerView(MatrixTrace(m, refSeq, qrySeq, alnSet), |refSeq|, |qrySeq|, m.refOffset, m.qryOffset);
      a := BuildUnaligned(|refSeq|, |qrySeq|, m.refOffset, m.qryOffset);
      return;
    }
    a := BuildAln(m.dirMatrix, alnSet, qrySeq[m.qryOffset..m.qryOffset + m.lenQry],
                  refSeq[m.refOffset..m.refOffset + m.lenRef], |qrySeq|, |refSeq|,
                  IndexToQry(m.lenRef, index) + m.qryOffset, IndexToRef(m.lenRef, index) + m.refOffset,
                  index / (m.lenRef + 1), index % (m.lenRef + 1), MatrixTrace(m, refSeq, qrySeq, alnSet));
  }
}
