/** alnSTToSeq of general/alnStruct.h: the per-base flag arrays of an
  * alignment become two gapped strings of equal length, one column per pass
  * of its loop. */
module AlnRender {
  import opened DataTypeShortHand
  import opened AlnStructs
  import GenHirsch

  /** The '-' written for a base aligned to a gap. */
  const Dash: uchar := 45

  /** A flag array as dirMatrixToAln leaves it: one real flag (gap, SNP,
    * match or soft mask) per base, closed by the end flag. */
  ghost predicate FlagArray(s: seq<int>) {
    && |s| >= 1 && s[|s| - 1] == EndAlnFlag
    && forall k :: 0 <= k < |s| - 1 ==> GapFlag <= s[k] <= SoftMaskFlag
  }

  /** The loop at reference flag r and query flag q: both arrays well formed
    * and as many match/SNP flags left in each, so that the loop, which only
    * moves past a match/SNP on both sides at once, ends on both end flags. */
  ghost predicate InStep(rf: seq<int>, qf: seq<int>, r: nat, q: nat) {
    FlagArray(rf) && FlagArray(qf) && r < |rf| && q < |qf| && Pairs(rf[r..]) == Pairs(qf[q..])
  }

  /** Counting a suffix from its first entry. */
  lemma CountFrom(s: seq<int>, k: nat, f: int)
    requires k < |s|
    ensures CountFlag(s[k..], f) == (if s[k] == f then 1 else 0) + CountFlag(s[k + 1..], f)
  {
    assert s[k..] == [s[k]] + s[k + 1..];
    CountFlagAppend([s[k]], s[k + 1..], f);
    CountOne(s[k], f);
  }

  lemma PairsFrom(s: seq<int>, k: nat)
    requires k < |s|
    ensures Pairs(s[k..]) == (if IsPairFlag(s[k]) then 1 else 0) + Pairs(s[k + 1..])
  {
    CountFrom(s, k, SnpFlag);
    CountFrom(s, k, MatchFlag);
  }

  /** The columns the loop of alnSTToSeq writes from flags (r, q) on: a
    * query gap or soft mask puts the query base under a '-', otherwise a
    * reference gap or soft mask puts the reference base over a '-', and a
    * match/SNP writes both bases. The loop ends on both end flags, or, when
    * only the aligned region is printed, once both positions are past the
    * alignment's end. */
  function Render(rf: seq<int>, qf: seq<int>, rs: seq<uchar>, qs: seq<uchar>, r: nat, q: nat,
                  aligned: bool, refEnd: int, qryEnd: int): (out: (seq<uchar>, seq<uchar>))
    requires InStep(rf, qf, r, q) && |rf| - 1 <= |rs| && |qf| - 1 <= |qs|
    ensures |out.0| == |out.1|
    decreases |rf| - r + |qf| - q
  {
    PairsFrom(rf, r);
    PairsFrom(qf, q);
    if rf[r] == EndAlnFlag && qf[q] == EndAlnFlag then ([], [])
    else if aligned && q > qryEnd && r > refEnd then ([], [])
    else if qf[q] == GapFlag || qf[q] == SoftMaskFlag then
      var o := Render(rf, qf, rs, qs, r, q + 1, aligned, refEnd, qryEnd);
      ([Dash] + o.0, [qs[q]] + o.1)
    else if rf[r] == SoftMaskFlag || rf[r] == GapFlag then
      var o := Render(rf, qf, rs, qs, r + 1, q, aligned, refEnd, qryEnd);
      ([rs[r]] + o.0, [Dash] + o.1)
    else
      var o := Render(rf, qf, rs, qs, r + 1, q + 1, aligned, refEnd, qryEnd);
      ([rs[r]] + o.0, [qs[q]] + o.1)
  }

  /** A gapped string with its '-' removed. */
  function Ungap(s: seq<uchar>): seq<uchar> {
    if s == [] then [] else (if s[0] == Dash then [] else [s[0]]) + Ungap(s[1..])
  }

  /** Number of '-' in a gapped string. */
  function Dashes(s: seq<uchar>): nat {
    if s == [] then 0 else (if s[0] == Dash then 1 else 0) + Dashes(s[1..])
  }

  /** Number of gap and soft-mask flags. */
  function Unpaired(s: seq<int>): nat {
    CountFlag(s, GapFlag) + CountFlag(s, SoftMaskFlag)
  }

  lemma UngapCons(c: uchar, s: seq<uchar>)
    ensures Ungap([c] + s) == (if c == Dash then [] else [c]) + Ungap(s)
    ensures Dashes([c] + s) == (if c == Dash then 1 else 0) + Dashes(s)
  {
    assert ([c] + s)[1..] == s;
  }

  /** Printing the whole alignment writes every reference base, in order:
    * without its '-', the reference string is the reference sequence again
    * (for a sequence that holds no '-' of its own). */
  lemma {:induction false} RenderKeepsRef(rf: seq<int>, qf: seq<int>, rs: seq<uchar>, qs: seq<uchar>,
                                          r: nat, q: nat, refEnd: int, qryEnd: int)
    requires InStep(rf, qf, r, q) && |rf| - 1 <= |rs| && |qf| - 1 <= |qs|
    requires forall k :: 0 <= k < |rf| - 1 ==> rs[k] != Dash
    ensures Ungap(Render(rf, qf, rs, qs, r, q, false, refEnd, qryEnd).0) == rs[r..|rf| - 1]
    decreases |rf| - r + |qf| - q
  {
    PairsFrom(rf, r);
    PairsFrom(qf, q);
    if rf[r] == EndAlnFlag && qf[q] == EndAlnFlag {
    } else if qf[q] == GapFlag || qf[q] == SoftMaskFlag {
      RenderKeepsRef(rf, qf, rs, qs, r, q + 1, refEnd, qryEnd);
      UngapCons(Dash, Render(rf, qf, rs, qs, r, q + 1, false, refEnd, qryEnd).0);
    } else {
      var q' := if rf[r] == SoftMaskFlag || rf[r] == GapFlag then q else q + 1;
      RenderKeepsRef(rf, qf, rs, qs, r + 1, q', refEnd, qryEnd);
      UngapCons(rs[r], Render(rf, qf, rs, qs, r + 1, q', false, refEnd, qryEnd).0);
      assert rs[r..|rf| - 1] == [rs[r]] + rs[r + 1..|rf| - 1];
    }
  }

  /** ... and every query base, in order. */
  lemma {:induction false} RenderKeepsQry(rf: seq<int>, qf: seq<int>, rs: seq<uchar>, qs: seq<uchar>,
                                          r: nat, q: nat, refEnd: int, qryEnd: int)
    requires InStep(rf, qf, r, q) && |rf| - 1 <= |rs| && |qf| - 1 <= |qs|
    requires forall k :: 0 <= k < |qf| - 1 ==> qs[k] != Dash
    ensures Ungap(Render(rf, qf, rs, qs, r, q, false, refEnd, qryEnd).1) == qs[q..|qf| - 1]
    decreases |rf| - r + |qf| - q
  {
    PairsFrom(rf, r);
    PairsFrom(qf, q);
    if rf[r] == EndAlnFlag && qf[q] == EndAlnFlag {
    } else if qf[q] == GapFlag || qf[q] == SoftMaskFlag {
      RenderKeepsQry(rf, qf, rs, qs, r, q + 1, refEnd, qryEnd);
      UngapCons(qs[q], Render(rf, qf, rs, qs, r, q + 1, false, refEnd, qryEnd).1);
      assert qs[q..|qf| - 1] == [qs[q]] + qs[q + 1..|qf| - 1];
    } else if rf[r] == SoftMaskFlag || rf[r] == GapFlag {
      RenderKeepsQry(rf, qf, rs, qs, r + 1, q, refEnd, qryEnd);
      UngapCons(Dash, Render(rf, qf, rs, qs, r + 1, q, false, refEnd, qryEnd).1);
    } else {
      RenderKeepsQry(rf, qf, rs, qs, r + 1, q + 1, refEnd, qryEnd);
      UngapCons(qs[q], Render(rf, qf, rs, qs, r + 1, q + 1, false, refEnd, qryEnd).1);
      assert qs[q..|qf| - 1] == [qs[q]] + qs[q + 1..|qf| - 1];
    }
  }

  /** Printing the whole alignment puts one '-' in the reference string per
    * query gap or soft mask and one '-' in the query string per reference
    * gap or soft mask (for sequences that hold no '-' of their own). */
  lemma {:induction false} RenderDashes(rf: seq<int>, qf: seq<int>, rs: seq<uchar>, qs: seq<uchar>,
                                        r: nat, q: nat, refEnd: int, qryEnd: int)
    requires InStep(rf, qf, r, q) && |rf| - 1 <= |rs| && |qf| - 1 <= |qs|
    requires forall k :: 0 <= k < |rf| - 1 ==> rs[k] != Dash
    requires forall k :: 0 <= k < |qf| - 1 ==> qs[k] != Dash
    ensures Dashes(Render(rf, qf, rs, qs, r, q, false, refEnd, qryEnd).0) == Unpaired(qf[q..])
    ensures Dashes(Render(rf, qf, rs, qs, r, q, false, refEnd, qryEnd).1) == Unpaired(rf[r..])
    decreases |rf| - r + |qf| - q
  {
    PairsFrom(rf, r);
    PairsFrom(qf, q);
    CountFrom(rf, r, GapFlag);
    CountFrom(rf, r, SoftMaskFlag);
    CountFrom(qf, q, GapFlag);
    CountFrom(qf, q, SoftMaskFlag);
    if rf[r] == EndAlnFlag && qf[q] == EndAlnFlag {
    } else if qf[q] == GapFlag || qf[q] == SoftMaskFlag {
      var o := Render(rf, qf, rs, qs, r, q + 1, false, refEnd, qryEnd);
      RenderDashes(rf, qf, rs, qs, r, q + 1, refEnd, qryEnd);
      UngapCons(Dash, o.0);
      UngapCons(qs[q], o.1);
    } else if rf[r] == SoftMaskFlag || rf[r] == GapFlag {
      var o := Render(rf, qf, rs, qs, r + 1, q, false, refEnd, qryEnd);
      RenderDashes(rf, qf, rs, qs, r + 1, q, refEnd, qryEnd);
      UngapCons(rs[r], o.0);
      UngapCons(Dash, o.1);
    } else {
      var o := Render(rf, qf, rs, qs, r + 1, q + 1, false, refEnd, qryEnd);
      RenderDashes(rf, qf, rs, qs, r + 1, q + 1, refEnd, qryEnd);
      UngapCons(rs[r], o.0);
      UngapCons(qs[q], o.1);
    }
  }

  /** Printing only the aligned region writes the first columns of what
    * printing everything from the same flags would write. */
  lemma {:induction false} AlignedIsPrefix(rf: seq<int>, qf: seq<int>, rs: seq<uchar>, qs: seq<uchar>,
                                           r: nat, q: nat, refEnd: int, qryEnd: int)
    requires InStep(rf, qf, r, q) && |rf| - 1 <= |rs| && |qf| - 1 <= |qs|
    ensures Render(rf, qf, rs, qs, r, q, true, refEnd, qryEnd).0
            <= Render(rf, qf, rs, qs, r, q, false, refEnd, qryEnd).0
    ensures Render(rf, qf, rs, qs, r, q, true, refEnd, qryEnd).1
            <= Render(rf, qf, rs, qs, r, q, false, refEnd, qryEnd).1
    decreases |rf| - r + |qf| - q
  {
    PairsFrom(rf, r);
    PairsFrom(qf, q);
    if rf[r] == EndAlnFlag && qf[q] == EndAlnFlag {
    } else if q > qryEnd && r > refEnd {
    } else if qf[q] == GapFlag || qf[q] == SoftMaskFlag {
      AlignedIsPrefix(rf, qf, rs, qs, r, q + 1, refEnd, qryEnd);
    } else if rf[r] == SoftMaskFlag || rf[r] == GapFlag {
      AlignedIsPrefix(rf, qf, rs, qs, r + 1, q, refEnd, qryEnd);
    } else {
      AlignedIsPrefix(rf, qf, rs, qs, r + 1, q + 1, refEnd, qryEnd);
    }
  }

  /** A flag array closed by dirMatrixToAln is a flag array, with the pair
    * flags of the path it was closed from. */
  lemma ClosedFlags(flags: seq<int>, len: nat)
    requires |flags| <= len && forall k :: 0 <= k < |flags| ==> 1 <= flags[k] <= 4
    ensures FlagArray(Closed(flags, len)) && Pairs(Closed(flags, len)) == Pairs(flags)
  {
    var pad := seq(len - |flags|, _ => SoftMaskFlag);
    assert Closed(flags, len) == flags + (pad + [EndAlnFlag]);
    CountFlagAppend(flags, pad + [EndAlnFlag], SnpFlag);
    CountFlagAppend(flags, pad + [EndAlnFlag], MatchFlag);
    CountFlagAppend(pad, [EndAlnFlag], SnpFlag);
    CountFlagAppend(pad, [EndAlnFlag], MatchFlag);
    CountFlagConst(len - |flags|, SoftMaskFlag, SnpFlag);
    CountFlagConst(len - |flags|, SoftMaskFlag, MatchFlag);
    CountOne(EndAlnFlag, SnpFlag);
    CountOne(EndAlnFlag, MatchFlag);
  }

  /** Dropping flags that hold no match/SNP keeps the pair count. */
  lemma {:induction false} PairsSuffix(s: seq<int>, k: nat)
    requires k <= |s| && forall i :: 0 <= i < k ==> !IsPairFlag(s[i])
    ensures Pairs(s[k..]) == Pairs(s)
    decreases k
  {
    if k == 0 {
      assert s[0..] == s;
    } else {
      PairsSuffix(s, k - 1);
      PairsFrom(s, k - 1);
    }
  }

  /** Every alignment dirMatrixToAln builds can be printed, whole or only
    * its aligned region: its flag arrays are well formed, and from the
    * first base as from the start it records (the leftmost match/SNP) both
    * arrays hold the same number of match/SNP flags, so the loop of
    * alnSTToSeq ends on both end flags. */
  lemma TracebackRenders(t: Traceback, i0: nat, j0: nat, refLen: nat, qryLen: nat,
                         refEnd: int, qryEnd: int, refSeq: seq<uchar>, qrySeq: seq<uchar>, full: bool)
    requires Walkable(t) && i0 <= |t.qry| && j0 <= |t.ref| && j0 <= refLen && i0 <= qryLen
    requires refLen <= |refSeq| && qryLen <= |qrySeq|
    ensures CanRender(TraceView(t, i0, j0, refLen, qryLen, refEnd, qryEnd), refSeq, qrySeq, full)
  {
    FlagsAreSet(t, i0, j0);
    PairFlagsAgree(t, i0, j0);
    FirstPairIsLeftmost(t, i0, j0, (0, 0));
    ClosedInStep(RefFlags(t, i0, j0), QryFlags(t, i0, j0), refLen, qryLen, FirstPair(t, i0, j0, (0, 0)), full);
  }

  /** Every alignment hirschToAlnST builds can be printed, whole or only its
    * aligned region: soft masks outside the windows and gaps or pair flags
    * inside make well-formed flag arrays, both hold the same match and SNP
    * counts, and no pair flag comes before the recorded start. */
  lemma HirschRenders(c: GenHirsch.Walk, refLen: nat, qryLen: nat,
                      refSeq: seq<uchar>, qrySeq: seq<uchar>, full: bool)
    requires GenHirsch.Paired(c) && c.refOff + |c.rf| <= refLen && c.qryOff + |c.qf| <= qryLen
    requires refLen <= |refSeq| && qryLen <= |qrySeq|
    ensures CanRender(GenHirsch.HirschView(c, refLen, qryLen), refSeq, qrySeq, full)
  {
    GenHirsch.HirschViewMasks(c, refLen, qryLen);
    GenHirsch.HirschViewGaps(c, refLen, qryLen);
    GenHirsch.HirschViewCounts(c, refLen, qryLen);
    WindowsRender(c.rf, c.qf, c.refOff, c.qryOff, GenHirsch.HirschView(c, refLen, qryLen),
                  refLen, qryLen, refSeq, qrySeq, full);
  }

  /** Flag arrays made of a reference window and a query window of gaps and
    * pair flags between soft masks, with as many match and SNP flags on
    * each side and the start at the first pair of each window (or past the
    * end when there is none), can be printed. */
  lemma WindowsRender(rf: seq<int>, qf: seq<int>, refOff: nat, qryOff: nat, v: AlnView,
                      refLen: nat, qryLen: nat, refSeq: seq<uchar>, qrySeq: seq<uchar>, full: bool)
    requires GenHirsch.GapOrSnp(rf) && GenHirsch.GapOrSnp(qf)
    requires |GenHirsch.SnpPositions(rf)| == |GenHirsch.SnpPositions(qf)|
    requires refOff + |rf| <= refLen && qryOff + |qf| <= qryLen
    requires refLen <= |refSeq| && qryLen <= |qrySeq|
    requires |v.refAln| == refLen + 1 && |v.qryAln| == qryLen + 1
    requires v.refAln[refLen] == EndAlnFlag && v.qryAln[qryLen] == EndAlnFlag
    requires forall k :: 0 <= k < refLen && !(refOff <= k < refOff + |rf|) ==> v.refAln[k] == SoftMaskFlag
    requires forall k :: 0 <= k < qryLen && !(qryOff <= k < qryOff + |qf|) ==> v.qryAln[k] == SoftMaskFlag
    requires GenHirsch.GapsAt(rf, v.refAln, refOff) && GenHirsch.GapsAt(qf, v.qryAln, qryOff)
    requires CountFlag(v.refAln, SnpFlag) == CountFlag(v.qryAln, SnpFlag)
    requires CountFlag(v.refAln, MatchFlag) == CountFlag(v.qryAln, MatchFlag)
    requires GenHirsch.SnpPositions(rf) == [] ==> v.refStart == refLen && v.qryStart == qryLen
    requires GenHirsch.SnpPositions(rf) != [] ==>
               && v.refStart == refOff + GenHirsch.SnpPositions(rf)[0]
               && v.qryStart == qryOff + GenHirsch.SnpPositions(qf)[0]
    ensures CanRender(v, refSeq, qrySeq, full)
  {
    WindowFlags(rf, v.refAln, refOff, refLen);
    WindowFlags(qf, v.qryAln, qryOff, qryLen);
    var rp := GenHirsch.SnpPositions(rf);
    var r, q := Start(v.refStart, full), Start(v.qryStart, full);
    if full {
      assert v.refAln[r..] == v.refAln && v.qryAln[q..] == v.qryAln;
    } else if rp == [] {
      assert v.refAln[r..] == [EndAlnFlag] == v.qryAln[q..];
    } else {
      NoPairBefore(rf, v.refAln, refOff);
      NoPairBefore(qf, v.qryAln, qryOff);
      PairsSuffix(v.refAln, r);
      PairsSuffix(v.qryAln, q);
    }
  }

  /** A window of gap and pair flags between soft masks, closed by the end
    * flag, is a flag array. */
  lemma WindowFlags(f: seq<int>, a: seq<int>, off: nat, len: nat)
    requires |a| == len + 1 && a[len] == EndAlnFlag && GenHirsch.GapsAt(f, a, off)
    requires forall k :: 0 <= k < len && !(off <= k < off + |f|) ==> a[k] == SoftMaskFlag
    ensures FlagArray(a)
  {
    forall k | 0 <= k < len
      ensures GapFlag <= a[k] <= SoftMaskFlag
    {
      if off <= k < off + |f| {
        var x := k - off;
        assert (a[off + x] == GapFlag <==> f[x] == GapFlag) && 1 <= a[off + x] <= 3;
      }
    }
  }

  /** No pair flag before the first aligned base of a window: the flags
    * there are soft masks (before the window) or gaps. */
  lemma NoPairBefore(f: seq<int>, a: seq<int>, off: nat)
    requires GenHirsch.GapOrSnp(f) && GenHirsch.GapsAt(f, a, off) && GenHirsch.SnpPositions(f) != []
    requires forall k :: 0 <= k < off ==> a[k] == SoftMaskFlag
    ensures off + GenHirsch.SnpPositions(f)[0] <= |a|
    ensures forall k :: 0 <= k < off + GenHirsch.SnpPositions(f)[0] ==> !IsPairFlag(a[k])
  {
    var p := GenHirsch.SnpPositions(f);
    GenHirsch.SnpPositionsExact(f);
    forall k | off <= k < off + p[0]
      ensures a[k] == GapFlag
    {
      var x := k - off;
      assert forall m :: 0 <= m < |p| ==> p[0] <= p[m];
      assert x !in p;
      assert a[off + x] == a[k];
    }
  }

  /** Closing two walked flag sequences with as many pair flags each leaves
    * the loop in step from the first pair (or from the first base). */
  lemma ClosedInStep(rfl: seq<int>, qfl: seq<int>, refLen: nat, qryLen: nat, s: (int, int), full: bool)
    requires |rfl| <= refLen && |qfl| <= qryLen
    requires forall k :: 0 <= k < |rfl| ==> 1 <= rfl[k] <= 4
    requires forall k :: 0 <= k < |qfl| ==> 1 <= qfl[k] <= 4
    requires CountFlag(rfl, SnpFlag) == CountFlag(qfl, SnpFlag)
    requires CountFlag(rfl, MatchFlag) == CountFlag(qfl, MatchFlag)
    requires if Pairs(rfl) == 0 then s == (0, 0) else LeftmostPair(rfl, s.0) && LeftmostPair(qfl, s.1)
    ensures s.0 >= 0 && s.1 >= 0
    ensures InStep(Closed(rfl, refLen), Closed(qfl, qryLen), Start(s.0, full), Start(s.1, full))
  {
    ClosedFlags(rfl, refLen);
    ClosedFlags(qfl, qryLen);
    var rf, qf := Closed(rfl, refLen), Closed(qfl, qryLen);
    assert rf[0..] == rf && qf[0..] == qf;
    if Pairs(rfl) != 0 {
      assert forall i :: 0 <= i < s.0 ==> rf[i] == rfl[i];
      assert forall i :: 0 <= i < s.1 ==> qf[i] == qfl[i];
      PairsSuffix(rf, s.0);
      PairsSuffix(qf, s.1);
    }
  }


  /** Where the loop starts: at the first base when printing everything, at
    * the alignment's start otherwise. */
  function Start(x: int, full: bool): nat
    requires full || x >= 0
  {
    if full then 0 else x
  }

  /** What alnSTToSeq needs of the alignment and the two sequences: flag
    * arrays as dirMatrixToAln leaves them, and a sequence base behind every
    * flag. */
  ghost predicate CanRender(v: AlnView, refSeq: seq<uchar>, qrySeq: seq<uchar>, full: bool) {
    && (full || (v.refStart >= 0 && v.qryStart >= 0))
    && InStep(v.refAln, v.qryAln, Start(v.refStart, full), Start(v.qryStart, full))
    && |v.refAln| - 1 <= |refSeq| && |v.qryAln| - 1 <= |qrySeq|
  }

  /** The two gapped strings alnSTToSeq prints for an alignment. */
  function Rendered(v: AlnView, refSeq: seq<uchar>, qrySeq: seq<uchar>, full: bool): (seq<uchar>, seq<uchar>)
    requires CanRender(v, refSeq, qrySeq, full)
  {
    Render(v.refAln, v.qryAln, refSeq, qrySeq, Start(v.refStart, full), Start(v.qryStart, full),
           !full, v.refEnd, v.qryEnd)
  }

  /** The buffer alnSTToSeq allocates (plus one for the NUL): the alignment
    * length when only the aligned region is printed, and otherwise the
    * counted moves plus the unaligned bases before the start and after the
    * end of both sequences. */
  function BuffSize(v: AlnView, full: bool): int {
    if !full then v.lenAln
    else v.numIns + v.numDels + v.numSnps + v.numMatches + v.refStart + v.qryStart
         + (v.refLen - v.refEnd) + (v.qryLen - v.qryEnd)
  }

  /** Every column of a rendering uses up at least one flag that is not an
    * end flag: the rendering from flags (r, q) has at most as many columns
    * as there are flags left before the two end flags. */
  lemma {:induction false} RenderFits(rf: seq<int>, qf: seq<int>, rs: seq<uchar>, qs: seq<uchar>, r: nat, q: nat,
                                      aligned: bool, refEnd: int, qryEnd: int)
    requires InStep(rf, qf, r, q) && |rf| - 1 <= |rs| && |qf| - 1 <= |qs|
    ensures |Render(rf, qf, rs, qs, r, q, aligned, refEnd, qryEnd).0| <= (|rf| - 1 - r) + (|qf| - 1 - q)
    decreases |rf| - r + |qf| - q
  {
    PairsFrom(rf, r);
    PairsFrom(qf, q);
    if rf[r] == EndAlnFlag && qf[q] == EndAlnFlag {
    } else if aligned && q > qryEnd && r > refEnd {
    } else if qf[q] == GapFlag || qf[q] == SoftMaskFlag {
      RenderFits(rf, qf, rs, qs, r, q + 1, aligned, refEnd, qryEnd);
    } else if rf[r] == SoftMaskFlag || rf[r] == GapFlag {
      RenderFits(rf, qf, rs, qs, r + 1, q, aligned, refEnd, qryEnd);
    } else {
      RenderFits(rf, qf, rs, qs, r + 1, q + 1, aligned, refEnd, qryEnd);
    }
  }

  /** Buffer length (without the NUL) that holds any rendering of the flag
    * arrays: one column per flag before the end flags. */
  function FitSize(v: AlnView): int {
    |v.refAln| - 1 + |v.qryAln| - 1
  }

  /** An alignment that ends on a deletion while the query goes on: SNP/match
    * at reference 0 and query 0, then reference base 1 against a gap; query
    * base 1 is soft masked after the end. */
  function DelEndView(): AlnView {
    AlnView([MatchFlag, GapFlag, EndAlnFlag], [MatchFlag, SoftMaskFlag, EndAlnFlag], 2, 2,
            0, 1, 0, 0, 2, 0, 1, 0, 1)
  }

  /** Printing only the aligned region of DelEndView writes three columns:
    * the query position passes the end first, so the loop, which stops only
    * once both positions are past their ends, also writes the soft-masked
    * query base before reaching the reference gap. The buffer of lenAlnUL
    * bytes plus the NUL holds two, so the last column's NUL lands past it. */
  lemma AlignedBufferShort()
    ensures CanRender(DelEndView(), [65, 67], [65, 71], false)
    ensures Rendered(DelEndView(), [65, 67], [65, 71], false) == ([65, Dash, 67], [65, 71, Dash])
    ensures BuffSize(DelEndView(), false) == 2
  {
    var rf, qf := DelEndView().refAln, DelEndView().qryAln;
    DelEndInStep();
    DelEndTail();
    var o0 := Render(rf, qf, [65, 67], [65, 71], 0, 0, true, 1, 0);
    assert o0.0 == [65, Dash, 67] && o0.1 == [65, 71, Dash];
  }

  /** DelEndView's flags stay in step at every position the loop reaches. */
  lemma DelEndInStep()
    ensures CanRender(DelEndView(), [65, 67], [65, 71], false)
    ensures var rf, qf := DelEndView().refAln, DelEndView().qryAln;
            InStep(rf, qf, 1, 1) && InStep(rf, qf, 1, 2) && InStep(rf, qf, 2, 2)
  {
    var rf, qf := DelEndView().refAln, DelEndView().qryAln;
    assert rf[0..] == rf && rf[1..] == [GapFlag, EndAlnFlag] && rf[2..] == [EndAlnFlag];
    assert qf[0..] == qf && qf[1..] == [SoftMaskFlag, EndAlnFlag] && qf[2..] == [EndAlnFlag];
    PairsFrom(rf, 0);
    PairsFrom(rf, 1);
    PairsFrom(qf, 0);
    PairsFrom(qf, 1);
  }

  /** After the first column, DelEndView renders the soft-masked query base
    * against the reference's second base, then the reference gap. */
  lemma DelEndTail()
    requires var rf, qf := DelEndView().refAln, DelEndView().qryAln;
             InStep(rf, qf, 1, 1) && InStep(rf, qf, 1, 2) && InStep(rf, qf, 2, 2)
    ensures Render(DelEndView().refAln, DelEndView().qryAln, [65, 67], [65, 71], 1, 1, true, 1, 0)
            == ([Dash, 67], [71, Dash])
  {
    var rf, qf := DelEndView().refAln, DelEndView().qryAln;
    var rs, qs: seq<uchar> := [65, 67], [65, 71];
    assert Render(rf, qf, rs, qs, 2, 2, true, 1, 0) == ([], []);
    var o2 := Render(rf, qf, rs, qs, 1, 2, true, 1, 0);
    assert o2.0 == [67] && o2.1 == [Dash];
    var o1 := Render(rf, qf, rs, qs, 1, 1, true, 1, 0);
    assert o1.0 == [Dash, 67] && o1.1 == [71, Dash];
  }


  /** The loop of alnSTToSeq after k columns, on values: the buffers hold
    * the first k columns of the rendering `o`, and the rest is what rendering
    * from flags (r, q) writes. */
  ghost predicate Filling(rf: seq<int>, qf: seq<int>, rs: seq<uchar>, qs: seq<uchar>,
                          aligned: bool, refEnd: int, qryEnd: int, o: (seq<uchar>, seq<uchar>),
                          ro: seq<uchar>, qo: seq<uchar>, r: nat, q: nat, k: nat)
  {
    && InStep(rf, qf, r, q) && |rf| - 1 <= |rs| && |qf| - 1 <= |qs|
    && |ro| == |qo| && |o.0| < |ro|
    && var w := Render(rf, qf, rs, qs, r, q, aligned, refEnd, qryEnd);
       k + |w.0| == |o.0| && o.0 == ro[..k] + w.0 && o.1 == qo[..k] + w.1
  }

  /** A query gap or soft mask: '-' over the query base. */
  lemma FillQryGap(rf: seq<int>, qf: seq<int>, rs: seq<uchar>, qs: seq<uchar>,
                   aligned: bool, refEnd: int, qryEnd: int, o: (seq<uchar>, seq<uchar>),
                   ro: seq<uchar>, qo: seq<uchar>, r: nat, q: nat, k: nat)
    requires Filling(rf, qf, rs, qs, aligned, refEnd, qryEnd, o, ro, qo, r, q, k)
    requires !(rf[r] == EndAlnFlag && qf[q] == EndAlnFlag) && !(aligned && q > qryEnd && r > refEnd)
    requires qf[q] == GapFlag || qf[q] == SoftMaskFlag
    ensures k < |ro| && q < |qs|
    ensures Filling(rf, qf, rs, qs, aligned, refEnd, qryEnd, o, ro[k := Dash], qo[k := qs[q]], r, q + 1, k + 1)
  {
    PairsFrom(qf, q);
    assert ro[k := Dash][..k + 1] == ro[..k] + [Dash];
    assert qo[k := qs[q]][..k + 1] == qo[..k] + [qs[q]];
  }

  /** A reference gap or soft mask: the reference base over '-'. */
  lemma FillRefGap(rf: seq<int>, qf: seq<int>, rs: seq<uchar>, qs: seq<uchar>,
                   aligned: bool, refEnd: int, qryEnd: int, o: (seq<uchar>, seq<uchar>),
                   ro: seq<uchar>, qo: seq<uchar>, r: nat, q: nat, k: nat)
    requires Filling(rf, qf, rs, qs, aligned, refEnd, qryEnd, o, ro, qo, r, q, k)
    requires !(rf[r] == EndAlnFlag && qf[q] == EndAlnFlag) && !(aligned && q > qryEnd && r > refEnd)
    requires !(qf[q] == GapFlag || qf[q] == SoftMaskFlag) && (rf[r] == SoftMaskFlag || rf[r] == GapFlag)
    ensures k < |ro| && r < |rs|
    ensures Filling(rf, qf, rs, qs, aligned, refEnd, qryEnd, o, ro[k := rs[r]], qo[k := Dash], r + 1, q, k + 1)
  {
    PairsFrom(rf, r);
    assert ro[k := rs[r]][..k + 1] == ro[..k] + [rs[r]];
    assert qo[k := Dash][..k + 1] == qo[..k] + [Dash];
  }

  /** A match or SNP: both bases. */
  lemma FillPair(rf: seq<int>, qf: seq<int>, rs: seq<uchar>, qs: seq<uchar>,
                 aligned: bool, refEnd: int, qryEnd: int, o: (seq<uchar>, seq<uchar>),
                 ro: seq<uchar>, qo: seq<uchar>, r: nat, q: nat, k: nat)
    requires Filling(rf, qf, rs, qs, aligned, refEnd, qryEnd, o, ro, qo, r, q, k)
    requires !(rf[r] == EndAlnFlag && qf[q] == EndAlnFlag) && !(aligned && q > qryEnd && r > refEnd)
    requires !(qf[q] == GapFlag || qf[q] == SoftMaskFlag) && !(rf[r] == SoftMaskFlag || rf[r] == GapFlag)
    ensures k < |ro| && r < |rs| && q < |qs|
    ensures Filling(rf, qf, rs, qs, aligned, refEnd, qryEnd, o, ro[k := rs[r]], qo[k := qs[q]], r + 1, q + 1, k + 1)
  {
    PairsFrom(rf, r);
    PairsFrom(qf, q);
    assert ro[k := rs[r]][..k + 1] == ro[..k] + [rs[r]];
    assert qo[k := qs[q]][..k + 1] == qo[..k] + [qs[q]];
  }

  /** When the loop ends the buffers hold the whole rendering. */
  lemma FillDone(rf: seq<int>, qf: seq<int>, rs: seq<uchar>, qs: seq<uchar>,
                 aligned: bool, refEnd: int, qryEnd: int, o: (seq<uchar>, seq<uchar>),
                 ro: seq<uchar>, qo: seq<uchar>, r: nat, q: nat, k: nat)
    requires Filling(rf, qf, rs, qs, aligned, refEnd, qryEnd, o, ro, qo, r, q, k)
    requires (rf[r] == EndAlnFlag && qf[q] == EndAlnFlag) || (aligned && q > qryEnd && r > refEnd)
    ensures k == |o.0| == |o.1| && k < |ro| && ro[..k] == o.0 && qo[..k] == o.1
  {
    PairsFrom(rf, r);
    PairsFrom(qf, q);
  }

  /** One pass of the loop of alnSTToSeq that writes a column (Fun-04
    * Sec-04 Sub-02 to Sub-07). */
  method FillColumn(rfa: array<int>, qfa: array<int>, refSeq: seq<uchar>, qrySeq: seq<uchar>,
                    ro: array<uchar>, qo: array<uchar>, aligned: bool, refEnd: int, qryEnd: int,
                    r: nat, q: nat, k: nat, ghost rf: seq<int>, ghost qf: seq<int>,
                    ghost o: (seq<uchar>, seq<uchar>))
    returns (r': nat, q': nat)
    requires ro != qo && rfa[..] == rf && qfa[..] == qf
    requires Filling(rf, qf, refSeq, qrySeq, aligned, refEnd, qryEnd, o, ro[..], qo[..], r, q, k)
    requires !(rf[r] == EndAlnFlag && qf[q] == EndAlnFlag) && !(aligned && q > qryEnd && r > refEnd)
    modifies ro, qo
    ensures r <= r' && q <= q' && r + q < r' + q'
    ensures Filling(rf, qf, refSeq, qrySeq, aligned, refEnd, qryEnd, o, ro[..], qo[..], r', q', k + 1)
  {
    ghost var ro0, qo0 := ro[..], qo[..];
    if qfa[q] == GapFlag || qfa[q] == SoftMaskFlag {
      FillQryGap(rf, qf, refSeq, qrySeq, aligned, refEnd, qryEnd, o, ro0, qo0, r, q, k);
      ro[k], qo[k] := Dash, qrySeq[q];
      assert ro[..] == ro0[k := Dash] && qo[..] == qo0[k := qrySeq[q]];
      r', q' := r, q + 1;
    } else if rfa[r] == SoftMaskFlag || rfa[r] == GapFlag {
      FillRefGap(rf, qf, refSeq, qrySeq, aligned, refEnd, qryEnd, o, ro0, qo0, r, q, k);
      ro[k], qo[k] := refSeq[r], Dash;
      assert ro[..] == ro0[k := refSeq[r]] && qo[..] == qo0[k := Dash];
      r', q' := r + 1, q;
    } else {
      FillPair(rf, qf, refSeq, qrySeq, aligned, refEnd, qryEnd, o, ro0, qo0, r, q, k);
      ro[k], qo[k] := refSeq[r], qrySeq[q];
      assert ro[..] == ro0[k := refSeq[r]] && qo[..] == qo0[k := qrySeq[q]];
      r', q' := r + 1, q + 1;
    }
  }

  /** Fun-04 Sec-02 to Sec-05 of alnSTToSeq once the flags are known: the
    * calloc'd buffers of `size` + 1 bytes, the loop, and the NUL that ends
    * both strings. */
  method FillBuffers(rfa: array<int>, qfa: array<int>, refSeq: seq<uchar>, qrySeq: seq<uchar>,
                     size: nat, aligned: bool, r0: nat, q0: nat, refEnd: int, qryEnd: int,
                     ghost rf: seq<int>, ghost qf: seq<int>)
    returns (ro: array<uchar>, qo: array<uchar>)
    requires rfa[..] == rf && qfa[..] == qf
    requires InStep(rf, qf, r0, q0) && |rf| - 1 <= |refSeq| && |qf| - 1 <= |qrySeq|
    requires |Render(rf, qf, refSeq, qrySeq, r0, q0, aligned, refEnd, qryEnd).0| <= size
    ensures fresh(ro) && fresh(qo) && ro.Length == size + 1 && qo.Length == size + 1
    ensures var o := Render(rf, qf, refSeq, qrySeq, r0, q0, aligned, refEnd, qryEnd);
            && ro[..|o.0|] == o.0 && ro[|o.0|] == 0 && qo[..|o.1|] == o.1 && qo[|o.1|] == 0
  {
    ghost var o := Render(rf, qf, refSeq, qrySeq, r0, q0, aligned, refEnd, qryEnd);
    ro := new uchar[size + 1](_ => 0);
    qo := new uchar[size + 1](_ => 0);
    var r: nat, q: nat, k: nat := r0, q0, 0;
    assert ro[..0] == [] && qo[..0] == [];
    while !(rfa[r] == EndAlnFlag && qfa[q] == EndAlnFlag)
      invariant rfa[..] == rf && qfa[..] == qf
      invariant Filling(rf, qf, refSeq, qrySeq, aligned, refEnd, qryEnd, o, ro[..], qo[..], r, q, k)
      decreases |rf| - r + |qf| - q
    {
      if aligned && q > qryEnd && r > refEnd {
        break;
      }
      r, q := FillColumn(rfa, qfa, refSeq, qrySeq, ro, qo, aligned, refEnd, qryEnd, r, q, k, rf, qf, o);
      k := k + 1;
    }
    FillDone(rf, qf, refSeq, qrySeq, aligned, refEnd, qryEnd, o, ro[..], qo[..], r, q, k);
    ro[k], qo[k] := 0, 0;
    assert ro[..k] == o.0 && qo[..k] == o.1;
  }

  /** alnSTToSeq: -1 when an allocation fails; otherwise two NUL-terminated
    * strings of the rendered columns. The buffers are sized by FitSize, which
    * holds every rendering; the size the source computes (BuffSize) can be
    * too small when only the aligned region is printed (AlignedBufferShort). */
  method AlnToSeq(refSeq: seq<uchar>, qrySeq: seq<uchar>, a: AlnStruct, full: bool, allocFails: bool)
    returns (status: int, refOut: array?<uchar>, qryOut: array?<uchar>)
    requires a.refAln != null && a.qryAln != null && CanRender(a.View(), refSeq, qrySeq, full)
    ensures status == 0 || status == -1
    ensures status == -1 <==> allocFails
    ensures allocFails ==> refOut == null && qryOut == null
    ensures !allocFails ==> refOut != null && qryOut != null && fresh(refOut) && fresh(qryOut)
    ensures |old(Rendered(a.View(), refSeq, qrySeq, full)).0| <= old(FitSize(a.View()))
    ensures !allocFails ==>
              && refOut.Length == old(FitSize(a.View())) + 1
              && qryOut.Length == old(FitSize(a.View())) + 1
              && var o := old(Rendered(a.View(), refSeq, qrySeq, full));
              && refOut[..|o.0|] == o.0 && refOut[|o.0|] == 0
              && qryOut[..|o.1|] == o.1 && qryOut[|o.1|] == 0
  {
    RenderFits(a.refAln[..], a.qryAln[..], refSeq, qrySeq, Start(a.refStart, full), Start(a.qryStart, full),
               !full, a.refEnd, a.qryEnd);
    if allocFails {
      return -1, null, null;
    }
    var size := a.refAln.Length - 1 + a.qryAln.Length - 1;
    refOut, qryOut := FillBuffers(a.refAln, a.qryAln, refSeq, qrySeq, size, !full,
                                  Start(a.refStart, full), Start(a.qryStart, full), a.refEnd, a.qryEnd,
                                  a.refAln[..], a.qryAln[..]);
    status := 0;
  }
}
