// hirschberg/genHirsch.h: the maxGap macros that score a Hirschberg cell
// and say whether its best move is a gap, and positionSingleBase, which
// places a lone base against a sequence region.

module GenHirsch {
  import opened DataTypeShortHand
  import opened GenMath
  import opened GenAln
  import opened AlnSetStruct
  import opened AlnStructs
  import opened AlnRecurrence

  // ---------------------------------------------------------------------------
  // maxGap macros
  // ---------------------------------------------------------------------------

  /** retMax and isGap after a maxGap macro: isGap is -1 when the kept move
    * is an insertion or deletion, 0 when it is a match/SNP. */
  datatype GapMax = GapMax(max: int, isGap: int)

  /** What every maxGap macro is meant to produce: the best score, and
    * whether the move the preference picks (the one charMaxScore picks) is
    * a gap. */
  function GapOf(p: Pref, snp: int, ins: int, del: int): GapMax {
    var b := Best(p, snp, ins, del);
    GapMax(b.score, if b.dir == MvSnp then 0 else -1)
  }

  /** maxGapInsDelSnp as written: the first macroMax stores max(ins, del)
    * into isGap, so the test and the final macroMax use the value retMax
    * held before the macro (`retMax0`). */
  function MaxGapInsDelSnpAsWritten(retMax0: int, snp: int, ins: int, del: int): (r: GapMax)
    ensures r.max >= snp && (r.isGap == -1 <==> retMax0 >= snp)
  {
    var isGap0 := MacroMax(ins, del);
    var isGap := -B2I(retMax0 >= snp);
    GapMax(MacroMax(isGap, snp), isGap)
  }

  /** Whatever retMax held before, maxGapInsDelSnp as written misses an
    * insertion that beats the SNP: with snp 0, ins 5, del 0 and a stale
    * retMax of 0 it keeps 0, not 5. */
  lemma MaxGapInsDelSnpLosesGap()
    ensures MaxGapInsDelSnpAsWritten(0, 0, 5, 0).max == 0
    ensures GapOf(InsDelSnp, 0, 5, 0).max == 5
  {
  }

  /** maxGapInsDelSnp with the first macroMax writing retMax, as in
    * maxGapDelInsSnp. */
  function MaxGapInsDelSnp(snp: int, ins: int, del: int): (r: GapMax)
    ensures r == GapOf(InsDelSnp, snp, ins, del)
  {
    var m := MacroMax(ins, del);
    var isGap := -B2I(m >= snp);
    GapMax(MacroMax(m, snp), isGap)
  }

  function MaxGapDelInsSnp(snp: int, ins: int, del: int): (r: GapMax)
    ensures r == GapOf(DelInsSnp, snp, ins, del)
  {
    var m := MacroMax(del, ins);
    var isGap := -B2I(m >= snp);
    GapMax(MacroMax(m, snp), isGap)
  }

  function MaxGapInsSnpDel(snp: int, ins: int, del: int): (r: GapMax)
    ensures r == GapOf(InsSnpDel, snp, ins, del)
  {
    var m0 := MacroMax(snp, del);
    var delWins := B2I(snp < m0);
    var m := MacroMax(ins, m0);
    GapMax(m, -B2I(ins == m || delWins == 1))
  }

  function MaxGapDelSnpIns(snp: int, ins: int, del: int): (r: GapMax)
    ensures r == GapOf(DelSnpIns, snp, ins, del)
  {
    var m0 := MacroMax(snp, ins);
    var insWins := B2I(snp < m0);
    var m := MacroMax(del, m0);
    GapMax(m, -B2I(del == m || insWins == 1))
  }

  function MaxGapSnpInsDel(snp: int, ins: int, del: int): (r: GapMax)
    ensures r == GapOf(SnpInsDel, snp, ins, del)
  {
    var m := MacroMax(MacroMax(snp, ins), del);
    GapMax(m, -B2I(snp < m))
  }

  function MaxGapSnpDelIns(snp: int, ins: int, del: int): (r: GapMax)
    ensures r == GapOf(SnpDelIns, snp, ins, del)
  {
    var m := MacroMax(MacroMax(snp, del), ins);
    GapMax(m, -B2I(snp < m))
  }

  /** maxGapScore: the macro for the preference (the run-time switch). */
  function MaxGapScore(p: Pref, snp: int, ins: int, del: int): (r: GapMax)
    ensures r.max == AlnMaxScore(p, snp, ins, del)
    ensures r.isGap == -1 <==> CharMaxScore(p, snp, ins, del).dir != MvSnp
    ensures r.isGap == 0 || r.isGap == -1
  {
    match p
    case SnpInsDel => MaxGapSnpInsDel(snp, ins, del)
    case SnpDelIns => MaxGapSnpDelIns(snp, ins, del)
    case InsSnpDel => MaxGapInsSnpDel(snp, ins, del)
    case DelSnpIns => MaxGapDelSnpIns(snp, ins, del)
    case InsDelSnp => MaxGapInsDelSnp(snp, ins, del)
    case DelInsSnp => MaxGapDelInsSnp(snp, ins, del)
  }

  // ---------------------------------------------------------------------------
  // Placing a single base
  // ---------------------------------------------------------------------------

  /** The last index below n whose entry is true, or -1. */
  function LastTrue(b: seq<bool>, n: nat): (r: int)
    requires n <= |b|
    ensures -1 <= r < n
    ensures r >= 0 ==> b[r] && forall k :: r < k < n ==> !b[k]
    ensures r == -1 ==> forall k :: 0 <= k < n ==> !b[k]
  {
    if n == 0 then -1
    else if b[n - 1] then n - 1
    else LastTrue(b, n - 1)
  }

  /** The score of a run of n gaps: gapOpen for the first, gapExtend for
    * each further one. */
  function GapRun(n: nat, gapOpen: int, gapExtend: int): int
  {
    if n == 0 then 0
    else if n == 1 then gapOpen
    else GapRun(n - 1, gapOpen, gapExtend) + gapExtend
  }

  /** A run of n >= 1 gaps scores gapOpen + (n - 1) * gapExtend. */
  lemma {:induction false} GapRunAffine(n: nat, gapOpen: int, gapExtend: int)
    ensures n >= 1 ==> GapRun(n, gapOpen, gapExtend) == gapOpen + (n - 1) * gapExtend
  {
    if n > 1 {
      GapRunAffine(n - 1, gapOpen, gapExtend);
    }
  }

  /** For each offset k of the region: whether putting the base there (k
    * gaps before it, then the base's score against sq[k]) beats the
    * insertion score the loop holds after k + 1 steps (k + 1 gaps). */
  function PlaceBeats(g: Params, base: uchar, sq: seq<uchar>): (b: seq<bool>)
    requires IsTable(g.table) && base as int < MatrixCol && IsIndexSeq(sq)
    ensures |b| == |sq|
  {
    seq(|sq|, k requires 0 <= k < |sq| =>
      GapRun(k, g.gapOpen, g.gapExtend) + g.table[sq[k]][base] > GapRun(k + 1, g.gapOpen, g.gapExtend))
  }

  /** Where the base lands: the last offset that beats the insertion score,
    * or the region's first base when none does. */
  function PlaceOffset(b: seq<bool>): (k: nat)
    ensures k == 0 || (k < |b| && b[k] && forall j :: k < j < |b| ==> !b[j])
    ensures |b| > 0 ==> k < |b|
  {
    var r := LastTrue(b, |b|);
    if r < 0 then 0 else r
  }

  /** The region's flags once the base is placed at offset `pos`: one
    * match/SNP flag there, gaps elsewhere. */
  function PlacedFlags(len: nat, pos: nat): (f: seq<int>)
    requires pos < len
    ensures |f| == len && f[pos] == SnpFlag
    ensures forall k :: 0 <= k < len && k != pos ==> f[k] == GapFlag
  {
    seq(len, k => if k == pos then SnpFlag else GapFlag)
  }

  /** A placed region holds exactly one match/SNP flag. */
  lemma {:induction false} PlacedOnePair(len: nat, pos: nat)
    requires pos < len
    ensures CountFlag(PlacedFlags(len, pos), SnpFlag) == 1
    ensures CountFlag(PlacedFlags(len, pos), GapFlag) == len - 1
  {
    var f := PlacedFlags(len, pos);
    assert f == seq(pos, _ => GapFlag) + [SnpFlag] + seq(len - pos - 1, _ => GapFlag);
    CountFlagAppend(seq(pos, _ => GapFlag) + [SnpFlag], seq(len - pos - 1, _ => GapFlag), SnpFlag);
    CountFlagAppend(seq(pos, _ => GapFlag) + [SnpFlag], seq(len - pos - 1, _ => GapFlag), GapFlag);
    CountFlagAppend(seq(pos, _ => GapFlag), [SnpFlag], SnpFlag);
    CountFlagAppend(seq(pos, _ => GapFlag), [SnpFlag], GapFlag);
    CountFlagConst(pos, GapFlag, SnpFlag);
    CountFlagConst(pos, GapFlag, GapFlag);
    CountFlagConst(len - pos - 1, GapFlag, SnpFlag);
    CountFlagConst(len - pos - 1, GapFlag, GapFlag);
    CountOne(SnpFlag, SnpFlag);
    CountOne(SnpFlag, GapFlag);
  }

  /** The first loop of positionSingleBase: the absolute index the base
    * goes to. */
  method ScanPlace(alnSet: AlnSet, ghost g: Params, base: uchar, sq: seq<uchar>, start: nat, len: nat)
    returns (snpIndex: nat)
    requires ParamsMatch(g, alnSet)
    requires base as int < MatrixCol && IsIndexSeq(sq)
    requires 1 <= len && start + len <= |sq|
    ensures snpIndex == start + PlaceOffset(PlaceBeats(g, base, sq[start..start + len]))
  {
    ghost var sub := sq[start..start + len];
    ghost var beats := PlaceBeats(g, base, sub);
    var lastIns := 0;
    var insScore := alnSet.settings.gapOpen - alnSet.settings.gapExtend;
    snpIndex := 0;
    var b := start;
    while b < start + len
      invariant start <= b <= start + len
      invariant insScore + g.gapExtend == GapRun(b - start + 1, g.gapOpen, g.gapExtend)
      invariant lastIns == GapRun(b - start, g.gapOpen, g.gapExtend)
      invariant snpIndex == (if LastTrue(beats, b - start) < 0 then 0 else start + LastTrue(beats, b - start))
    {
      var matchScore := lastIns + alnSet.GetBaseScore(sq[b], base);
      insScore := insScore + alnSet.settings.gapExtend;
      lastIns := insScore;
      assert sub[b - start] == sq[b];
      if matchScore > insScore {
        snpIndex := b;
      }
      b := b + 1;
    }
    if snpIndex == 0 {
      snpIndex := start;
    }
  }

  /** The two marking loops of positionSingleBase: gaps over the region, one
    * match/SNP flag at snpIndex. */
  method MarkPlaced(seqAln: array<int>, start: nat, len: nat, snpIndex: nat)
    requires start <= snpIndex < start + len <= seqAln.Length
    modifies seqAln
    ensures seqAln[start..start + len] == PlacedFlags(len, snpIndex - start)
    ensures forall k :: 0 <= k < seqAln.Length && !(start <= k < start + len) ==> seqAln[k] == old(seqAln[k])
  {
    var b := start;
    while b < snpIndex
      invariant start <= b <= snpIndex
      invariant forall k :: start <= k < b ==> seqAln[k] == GapFlag
      invariant forall k :: 0 <= k < seqAln.Length && !(start <= k < b) ==> seqAln[k] == old(seqAln[k])
    {
      seqAln[b] := GapFlag;
      b := b + 1;
    }
    seqAln[b] := SnpFlag;
    b := b + 1;
    while b < start + len
      invariant snpIndex < b <= start + len
      invariant forall k :: start <= k < b ==> seqAln[k] == if k == snpIndex then SnpFlag else GapFlag
      invariant forall k :: 0 <= k < seqAln.Length && !(start <= k < b) ==> seqAln[k] == old(seqAln[k])
    {
      seqAln[b] := GapFlag;
      b := b + 1;
    }
    ghost var f, pf := seqAln[start..start + len], PlacedFlags(len, snpIndex - start);
    forall k | 0 <= k < len
      ensures f[k] == pf[k]
    {
      assert f[k] == seqAln[start + k];
    }
  }

  /** positionSingleBase: aligns `base` (at baseIndex of its own alignment)
    * to sq[start..start + len): marks it a match/SNP, and marks the region
    * gaps except one match/SNP at the offset PlaceOffset picks. */
  method PositionSingleBase(alnSet: AlnSet, ghost g: Params, base: uchar, baseIndex: nat,
                            sq: seq<uchar>, start: nat, len: nat,
                            baseAln: array<int>, seqAln: array<int>)
    requires ParamsMatch(g, alnSet)
    requires base as int < MatrixCol && IsIndexSeq(sq)
    requires 1 <= len && start + len <= |sq| && start + len <= seqAln.Length
    requires baseIndex < baseAln.Length && baseAln != seqAln
    modifies baseAln, seqAln
    ensures seqAln[start..start + len] == PlacedFlags(len, PlaceOffset(PlaceBeats(g, base, sq[start..start + len])))
    ensures forall k :: 0 <= k < seqAln.Length && !(start <= k < start + len) ==> seqAln[k] == old(seqAln[k])
    ensures baseAln[..] == old(baseAln[..])[baseIndex := SnpFlag]
  {
    var snpIndex := ScanPlace(alnSet, g, base, sq, start, len);
    baseAln[baseIndex] := SnpFlag;
    MarkPlaced(seqAln, start, len, snpIndex);
  }

  // ---------------------------------------------------------------------------
  // hirschToAlnST: the walk over the flags HirschbergFun leaves
  // ---------------------------------------------------------------------------

  /** Only gaps and aligned bases: nothing is ever soft masked or left
    * blank. */
  predicate GapOrSnp(s: seq<int>) {
    forall k :: 0 <= k < |s| ==> s[k] == GapFlag || s[k] == SnpFlag
  }

  lemma GapOrSnpAppend(l: seq<int>, r: seq<int>)
    requires GapOrSnp(l) && GapOrSnp(r)
    ensures GapOrSnp(l + r)
  {
  }

  /** A flag array with only gaps and aligned bases holds one of the two at
    * every position. */
  lemma {:induction false} GapOrSnpCount(s: seq<int>)
    requires GapOrSnp(s)
    ensures CountFlag(s, GapFlag) + CountFlag(s, SnpFlag) == |s|
  {
    if s != [] {
      GapOrSnpCount(s[..|s| - 1]);
    }
  }

  /** What hirschToAlnST reads: the flags HirschbergFun left for the
    * reference window (rf) and the query window (qf), the bases of the two
    * windows as lookup indexes, where the windows start in their sequences,
    * and the match table. */
  datatype Walk = Walk(rf: seq<int>, qf: seq<int>, ref: seq<uchar>, qry: seq<uchar>,
                       refOff: nat, qryOff: nat, matches: seq<seq<int>>)

  /** Flags as HirschbergFun leaves them: one per window base, gaps and
    * aligned bases only, equally many aligned bases on both sides. */
  predicate Paired(c: Walk) {
    && |c.rf| == |c.ref| && |c.qf| == |c.qry|
    && GapOrSnp(c.rf) && GapOrSnp(c.qf)
    && CountFlag(c.rf, SnpFlag) == CountFlag(c.qf, SnpFlag)
    && IsTable(c.matches) && IsIndexSeq(c.ref) && IsIndexSeq(c.qry)
  }

  /** The counters of the walk: numInssL, numDelsL, numSnpsL, numMatchesL,
    * and the first and last aligned reference and query positions, -1
    * while there is none. */
  datatype Counts = Counts(numIns: nat, numDels: nat, numSnps: nat, numMatches: nat,
                           refFirst: int, refLast: int, qryFirst: int, qryLast: int)

  /** The walk after reading j reference flags and i query flags: the flags
    * it wrote for them (ro, qo) and its counters. */
  datatype WalkState = WalkState(i: nat, j: nat, ro: seq<int>, qo: seq<int>, n: Counts)

  function Start(): WalkState {
    WalkState(0, 0, [], [], Counts(0, 0, 0, 0, -1, -1, -1, -1))
  }

  /** The walk has read no flag past the windows and has passed equally
    * many aligned bases on both sides. */
  predicate Moving(c: Walk, s: WalkState) {
    && s.j <= |c.rf| && s.i <= |c.qf| && |s.ro| == s.j && |s.qo| == s.i
    && CountFlag(c.rf[..s.j], SnpFlag) == CountFlag(c.qf[..s.i], SnpFlag)
  }

  /** Both windows are read: the two flags under the walk are end flags. */
  predicate Done(c: Walk, s: WalkState) {
    s.j == |c.rf| && s.i == |c.qf|
  }

  lemma CountPrefixStep(s: seq<int>, k: nat, f: int)
    requires k < |s|
    ensures CountFlag(s[..k + 1], f) == CountFlag(s[..k], f) + (if s[k] == f then 1 else 0)
  {
    assert s[..k + 1][..k] == s[..k];
  }

  lemma CountPrefixAtMost(s: seq<int>, k: nat, f: int)
    requires k <= |s|
    ensures CountFlag(s[..k], f) <= CountFlag(s, f)
  {
    CountFlagAppend(s[..k], s[k..], f);
    assert s[..k] + s[k..] == s;
  }

  lemma CountPush(s: seq<int>, x: int, f: int)
    ensures CountFlag(s + [x], f) == CountFlag(s, f) + (if x == f then 1 else 0)
  {
    assert (s + [x])[..|s|] == s;
  }

  /** On paired flags the walk never stalls: while a flag is left on either
    * side, the next query flag is a gap, or both next flags are aligned
    * bases, or the next reference flag is a gap. */
  lemma NotStuck(c: Walk, s: WalkState)
    requires Paired(c) && Moving(c, s) && !Done(c, s)
    ensures || (s.i < |c.qf| && c.qf[s.i] == GapFlag)
            || (s.j < |c.rf| && s.i < |c.qf| && c.rf[s.j] == SnpFlag && c.qf[s.i] == SnpFlag)
            || (s.j < |c.rf| && c.rf[s.j] == GapFlag)
  {
    if s.j < |c.rf| {
      CountPrefixStep(c.rf, s.j, SnpFlag);
      CountPrefixAtMost(c.rf, s.j + 1, SnpFlag);
    }
    if s.i < |c.qf| {
      CountPrefixStep(c.qf, s.i, SnpFlag);
      CountPrefixAtMost(c.qf, s.i + 1, SnpFlag);
    }
    assert c.rf[..|c.rf|] == c.rf && c.qf[..|c.qf|] == c.qf;
  }

  /** The flag of an aligned pair: defMatchFlag when the match table calls
    * the query base and the reference base a match, defSnpFlag otherwise. */
  function PairFlagOf(c: Walk, j: nat, i: nat): (f: int)
    requires IsTable(c.matches) && IsIndexSeq(c.ref) && IsIndexSeq(c.qry)
    requires j < |c.ref| && i < |c.qry|
    ensures f == MatchFlag || f == SnpFlag
  {
    if c.matches[c.qry[i]][c.ref[j]] != 0 then MatchFlag else SnpFlag
  }

  /** A query gap: an insertion. */
  function InsMove(s: WalkState): WalkState {
    WalkState(s.i + 1, s.j, s.ro, s.qo + [GapFlag], s.n.(numIns := s.n.numIns + 1))
  }

  /** A reference gap: a deletion. */
  function DelMove(s: WalkState): WalkState {
    WalkState(s.i, s.j + 1, s.ro + [GapFlag], s.qo, s.n.(numDels := s.n.numDels + 1))
  }

  /** A pair of aligned bases at reference position r and query position q
    * under the flag f: a match or a SNP, the last pair so far, and the first
    * one when there was none before it. */
  function PairMove(s: WalkState, f: int, r: int, q: int): WalkState {
    WalkState(s.i + 1, s.j + 1, s.ro + [f], s.qo + [f],
              s.n.(numSnps := if f == SnpFlag then s.n.numSnps + 1 else s.n.numSnps,
                   numMatches := if f == MatchFlag then s.n.numMatches + 1 else s.n.numMatches,
                   refFirst := if s.n.refFirst < 0 then r else s.n.refFirst, refLast := r,
                   qryFirst := if s.n.qryFirst < 0 then q else s.n.qryFirst, qryLast := q))
  }

  /** One pass of the loop of hirschToAlnST: a query gap is an insertion; an
    * aligned reference base pairs with the query's under the match table's
    * flag; a reference gap is a deletion. */
  function Step(c: Walk, s: WalkState): (s': WalkState)
    requires Paired(c) && Moving(c, s) && !Done(c, s)
    ensures Moving(c, s') && s'.i + s'.j > s.i + s.j
  {
    NotStuck(c, s);
    if s.i < |c.qf| && c.qf[s.i] == GapFlag then
      CountPrefixStep(c.qf, s.i, SnpFlag);
      InsMove(s)
    else if s.j < |c.rf| && c.rf[s.j] == SnpFlag then
      CountPrefixStep(c.qf, s.i, SnpFlag);
      CountPrefixStep(c.rf, s.j, SnpFlag);
      PairMove(s, PairFlagOf(c, s.j, s.i), c.refOff + s.j, c.qryOff + s.i)
    else
      CountPrefixStep(c.rf, s.j, SnpFlag);
      DelMove(s)
  }

  lemma StepIns(c: Walk, s: WalkState)
    requires Paired(c) && Moving(c, s) && !Done(c, s)
    requires s.i < |c.qf| && c.qf[s.i] == GapFlag
    ensures Step(c, s) == InsMove(s)
  {
  }

  lemma StepPair(c: Walk, s: WalkState)
    requires Paired(c) && Moving(c, s) && !Done(c, s)
    requires !(s.i < |c.qf| && c.qf[s.i] == GapFlag) && s.j < |c.rf| && c.rf[s.j] == SnpFlag
    ensures s.i < |c.qf| && c.qf[s.i] == SnpFlag
    ensures Step(c, s) == PairMove(s, PairFlagOf(c, s.j, s.i), c.refOff + s.j, c.qryOff + s.i)
  {
    NotStuck(c, s);
  }

  lemma StepDel(c: Walk, s: WalkState)
    requires Paired(c) && Moving(c, s) && !Done(c, s)
    requires !(s.i < |c.qf| && c.qf[s.i] == GapFlag) && !(s.j < |c.rf| && c.rf[s.j] == SnpFlag)
    ensures s.j < |c.rf| && c.rf[s.j] == GapFlag
    ensures Step(c, s) == DelMove(s)
  {
    NotStuck(c, s);
  }

  /** The walk from `s` to the end of both windows. */
  function Run(c: Walk, s: WalkState): (r: WalkState)
    requires Paired(c) && Moving(c, s)
    ensures Moving(c, r) && Done(c, r)
    decreases |c.rf| + |c.qf| - s.i - s.j
  {
    if Done(c, s) then s else Run(c, Step(c, s))
  }

  /** The positions of the aligned bases among the flags s, in order. */
  function SnpPositions(s: seq<int>): (p: seq<nat>)
    ensures |p| == CountFlag(s, SnpFlag)
    ensures forall k :: 0 <= k < |p| ==> p[k] < |s| && s[p[k]] == SnpFlag
  {
    if s == [] then []
    else
      var p := SnpPositions(s[..|s| - 1]);
      if s[|s| - 1] == SnpFlag then p + [|s| - 1] else p
  }

  /** SnpPositions lists every aligned base, in increasing order. */
  lemma {:induction false} SnpPositionsExact(s: seq<int>)
    ensures var p := SnpPositions(s);
            && (forall k, l :: 0 <= k < l < |p| ==> p[k] < p[l])
            && (forall x :: 0 <= x < |s| && s[x] == SnpFlag ==> x in p)
  {
    if s != [] {
      SnpPositionsExact(s[..|s| - 1]);
    }
  }

  lemma PositionsStep(s: seq<int>, k: nat)
    requires k < |s|
    ensures SnpPositions(s[..k + 1]) == SnpPositions(s[..k]) + (if s[k] == SnpFlag then [k] else [])
  {
    assert s[..k + 1][..k] == s[..k];
  }

  /** first and last are the positions, from `off`, of the first and last
    * aligned bases `p` lists, or -1 when it lists none. */
  predicate Ends(p: seq<nat>, off: nat, first: int, last: int) {
    if p == [] then first == -1 && last == -1
    else first == off + p[0] && last == off + p[|p| - 1]
  }

  /** The flags o written for the flags f read: a gap exactly where f has
    * one, a flag from 1 to 3 everywhere. */
  ghost predicate FlagsMatch(f: seq<int>, o: seq<int>) {
    |f| == |o| && forall k :: 0 <= k < |f| ==> (o[k] == GapFlag <==> f[k] == GapFlag) && 1 <= o[k] <= 3
  }

  lemma FlagsPush(f: seq<int>, o: seq<int>, y: int, x: int)
    requires FlagsMatch(f, o) && (x == GapFlag <==> y == GapFlag) && 1 <= x <= 3
    ensures FlagsMatch(f + [y], o + [x])
  {
  }

  /** The k-th aligned reference base (at rp[k]) and the k-th aligned query
    * base (at qp[k]) both carry the flag the match table gives the pair. */
  ghost predicate PairsMatch(c: Walk, rp: seq<nat>, qp: seq<nat>, ro: seq<int>, qo: seq<int>)
    requires Paired(c)
  {
    |rp| == |qp|
    && forall k :: 0 <= k < |rp| ==>
         && rp[k] < |ro| && rp[k] < |c.ref| && qp[k] < |qo| && qp[k] < |c.qry|
         && ro[rp[k]] == PairFlagOf(c, rp[k], qp[k]) && qo[qp[k]] == PairFlagOf(c, rp[k], qp[k])
  }

  lemma PairsKeep(c: Walk, rp: seq<nat>, qp: seq<nat>, ro: seq<int>, qo: seq<int>, ro': seq<int>, qo': seq<int>)
    requires Paired(c) && PairsMatch(c, rp, qp, ro, qo)
    requires ro <= ro' && qo <= qo'
    ensures PairsMatch(c, rp, qp, ro', qo')
  {
  }

  lemma PairsPush(c: Walk, rp: seq<nat>, qp: seq<nat>, ro: seq<int>, qo: seq<int>)
    requires Paired(c) && PairsMatch(c, rp, qp, ro, qo)
    requires |ro| < |c.ref| && |qo| < |c.qry|
    ensures var f := PairFlagOf(c, |ro|, |qo|);
            PairsMatch(c, rp + [|ro|], qp + [|qo|], ro + [f], qo + [f])
  {
  }

  /** The counters count the query gaps, the reference gaps, and the SNP
    * and match flags written on either side, one per pair read. */
  ghost predicate CountsMatch(c: Walk, s: WalkState)
    requires Moving(c, s)
  {
    && s.n.numIns == CountFlag(c.qf[..s.i], GapFlag) && s.n.numDels == CountFlag(c.rf[..s.j], GapFlag)
    && s.n.numSnps == CountFlag(s.ro, SnpFlag) && s.n.numSnps == CountFlag(s.qo, SnpFlag)
    && s.n.numMatches == CountFlag(s.ro, MatchFlag) && s.n.numMatches == CountFlag(s.qo, MatchFlag)
    && s.n.numSnps + s.n.numMatches == CountFlag(c.rf[..s.j], SnpFlag)
  }

  lemma EndsPush(p: seq<nat>, off: nat, first: int, last: int, x: nat)
    requires Ends(p, off, first, last)
    ensures Ends(p + [x], off, if first < 0 then off + x else first, off + x)
  {
  }

  /** One pass of the loop keeps the written flags matching the flags read. */
  lemma StepFlags(c: Walk, s: WalkState)
    requires Paired(c) && Moving(c, s) && !Done(c, s)
    requires FlagsMatch(c.rf[..s.j], s.ro) && FlagsMatch(c.qf[..s.i], s.qo)
    ensures var s' := Step(c, s);
            FlagsMatch(c.rf[..s'.j], s'.ro) && FlagsMatch(c.qf[..s'.i], s'.qo)
  {
    if s.i < |c.qf| && c.qf[s.i] == GapFlag {
      StepIns(c, s);
      assert c.qf[..s.i + 1] == c.qf[..s.i] + [GapFlag];
      FlagsPush(c.qf[..s.i], s.qo, GapFlag, GapFlag);
    } else if s.j < |c.rf| && c.rf[s.j] == SnpFlag {
      StepPair(c, s);
      var f := PairFlagOf(c, s.j, s.i);
      assert c.qf[..s.i + 1] == c.qf[..s.i] + [SnpFlag];
      assert c.rf[..s.j + 1] == c.rf[..s.j] + [SnpFlag];
      FlagsPush(c.qf[..s.i], s.qo, SnpFlag, f);
      FlagsPush(c.rf[..s.j], s.ro, SnpFlag, f);
    } else {
      StepDel(c, s);
      assert c.rf[..s.j + 1] == c.rf[..s.j] + [GapFlag];
      FlagsPush(c.rf[..s.j], s.ro, GapFlag, GapFlag);
    }
  }

  /** A query gap or a reference gap leaves the pairs as they were. */
  lemma PairsGap(c: Walk, s: WalkState, ro': seq<int>, qo': seq<int>, i': nat, j': nat)
    requires Paired(c) && Moving(c, s)
    requires PairsMatch(c, SnpPositions(c.rf[..s.j]), SnpPositions(c.qf[..s.i]), s.ro, s.qo)
    requires (i' == s.i + 1 && j' == s.j && s.i < |c.qf| && c.qf[s.i] == GapFlag)
          || (i' == s.i && j' == s.j + 1 && s.j < |c.rf| && c.rf[s.j] == GapFlag)
    requires s.ro <= ro' && s.qo <= qo'
    ensures PairsMatch(c, SnpPositions(c.rf[..j']), SnpPositions(c.qf[..i']), ro', qo')
  {
    if i' > s.i {
      PositionsStep(c.qf, s.i);
    } else {
      PositionsStep(c.rf, s.j);
    }
    PairsKeep(c, SnpPositions(c.rf[..s.j]), SnpPositions(c.qf[..s.i]), s.ro, s.qo, ro', qo');
  }

  /** A pair of aligned bases adds the pair under the match table's flag. */
  lemma PairsPair(c: Walk, s: WalkState)
    requires Paired(c) && Moving(c, s)
    requires PairsMatch(c, SnpPositions(c.rf[..s.j]), SnpPositions(c.qf[..s.i]), s.ro, s.qo)
    requires s.i < |c.qf| && c.qf[s.i] == SnpFlag && s.j < |c.rf| && c.rf[s.j] == SnpFlag
    ensures var f := PairFlagOf(c, s.j, s.i);
            PairsMatch(c, SnpPositions(c.rf[..s.j + 1]), SnpPositions(c.qf[..s.i + 1]), s.ro + [f], s.qo + [f])
  {
    PositionsStep(c.qf, s.i);
    PositionsStep(c.rf, s.j);
    PairsPush(c, SnpPositions(c.rf[..s.j]), SnpPositions(c.qf[..s.i]), s.ro, s.qo);
  }

  /** One pass of the loop keeps the pairs carrying the match table's flag. */
  lemma StepPairs(c: Walk, s: WalkState)
    requires Paired(c) && Moving(c, s) && !Done(c, s)
    requires PairsMatch(c, SnpPositions(c.rf[..s.j]), SnpPositions(c.qf[..s.i]), s.ro, s.qo)
    ensures var s' := Step(c, s);
            PairsMatch(c, SnpPositions(c.rf[..s'.j]), SnpPositions(c.qf[..s'.i]), s'.ro, s'.qo)
  {
    if s.i < |c.qf| && c.qf[s.i] == GapFlag {
      StepIns(c, s);
      PairsGap(c, s, s.ro, s.qo + [GapFlag], s.i + 1, s.j);
    } else if s.j < |c.rf| && c.rf[s.j] == SnpFlag {
      StepPair(c, s);
      PairsPair(c, s);
    } else {
      StepDel(c, s);
      PairsGap(c, s, s.ro + [GapFlag], s.qo, s.i, s.j + 1);
    }
  }

  /** A query gap keeps the counters counting. */
  lemma CountsIns(c: Walk, s: WalkState)
    requires Moving(c, s) && CountsMatch(c, s) && s.i < |c.qf| && c.qf[s.i] == GapFlag
    ensures Moving(c, InsMove(s)) && CountsMatch(c, InsMove(s))
  {
    CountPrefixStep(c.qf, s.i, GapFlag);
    CountPrefixStep(c.qf, s.i, SnpFlag);
    CountPush(s.qo, GapFlag, SnpFlag);
    CountPush(s.qo, GapFlag, MatchFlag);
  }

  /** A reference gap keeps the counters counting. */
  lemma CountsDel(c: Walk, s: WalkState)
    requires Moving(c, s) && CountsMatch(c, s) && s.j < |c.rf| && c.rf[s.j] == GapFlag
    ensures Moving(c, DelMove(s)) && CountsMatch(c, DelMove(s))
  {
    CountPrefixStep(c.rf, s.j, GapFlag);
    CountPrefixStep(c.rf, s.j, SnpFlag);
    CountPush(s.ro, GapFlag, SnpFlag);
    CountPush(s.ro, GapFlag, MatchFlag);
  }

  /** A pair flagged f keeps the counters counting. */
  lemma CountsPair(c: Walk, s: WalkState, f: int, r: int, q: int)
    requires Moving(c, s) && CountsMatch(c, s)
    requires s.i < |c.qf| && c.qf[s.i] == SnpFlag && s.j < |c.rf| && c.rf[s.j] == SnpFlag
    requires f == MatchFlag || f == SnpFlag
    ensures Moving(c, PairMove(s, f, r, q)) && CountsMatch(c, PairMove(s, f, r, q))
  {
    CountPrefixStep(c.qf, s.i, GapFlag);
    CountPrefixStep(c.qf, s.i, SnpFlag);
    CountPrefixStep(c.rf, s.j, GapFlag);
    CountPrefixStep(c.rf, s.j, SnpFlag);
    CountPush(s.ro, f, SnpFlag);
    CountPush(s.ro, f, MatchFlag);
    CountPush(s.qo, f, SnpFlag);
    CountPush(s.qo, f, MatchFlag);
  }

  /** One pass of the loop keeps the counters counting. */
  lemma StepCounts(c: Walk, s: WalkState)
    requires Paired(c) && Moving(c, s) && !Done(c, s) && CountsMatch(c, s)
    ensures CountsMatch(c, Step(c, s))
  {
    if s.i < |c.qf| && c.qf[s.i] == GapFlag {
      StepIns(c, s);
      CountsIns(c, s);
    } else if s.j < |c.rf| && c.rf[s.j] == SnpFlag {
      StepPair(c, s);
      CountsPair(c, s, PairFlagOf(c, s.j, s.i), c.refOff + s.j, c.qryOff + s.i);
    } else {
      StepDel(c, s);
      CountsDel(c, s);
    }
  }

  /** A pair at reference position j and query position i is the last pair
    * so far, and the first one when there was none before it. */
  lemma EndsPair(c: Walk, s: WalkState, n: Counts)
    requires Moving(c, s)
    requires Ends(SnpPositions(c.rf[..s.j]), c.refOff, s.n.refFirst, s.n.refLast)
    requires Ends(SnpPositions(c.qf[..s.i]), c.qryOff, s.n.qryFirst, s.n.qryLast)
    requires s.i < |c.qf| && c.qf[s.i] == SnpFlag && s.j < |c.rf| && c.rf[s.j] == SnpFlag
    requires n.refFirst == (if s.n.refFirst < 0 then c.refOff + s.j else s.n.refFirst)
    requires n.qryFirst == (if s.n.qryFirst < 0 then c.qryOff + s.i else s.n.qryFirst)
    requires n.refLast == c.refOff + s.j && n.qryLast == c.qryOff + s.i
    ensures Ends(SnpPositions(c.rf[..s.j + 1]), c.refOff, n.refFirst, n.refLast)
    ensures Ends(SnpPositions(c.qf[..s.i + 1]), c.qryOff, n.qryFirst, n.qryLast)
  {
    PositionsStep(c.qf, s.i);
    PositionsStep(c.rf, s.j);
    EndsPush(SnpPositions(c.rf[..s.j]), c.refOff, s.n.refFirst, s.n.refLast, s.j);
    EndsPush(SnpPositions(c.qf[..s.i]), c.qryOff, s.n.qryFirst, s.n.qryLast, s.i);
  }

  /** A query gap or a reference gap leaves the first and last pairs as
    * they were. */
  lemma EndsGap(c: Walk, s: WalkState, i': nat, j': nat)
    requires Moving(c, s)
    requires Ends(SnpPositions(c.rf[..s.j]), c.refOff, s.n.refFirst, s.n.refLast)
    requires Ends(SnpPositions(c.qf[..s.i]), c.qryOff, s.n.qryFirst, s.n.qryLast)
    requires (i' == s.i + 1 && j' == s.j && s.i < |c.qf| && c.qf[s.i] == GapFlag)
          || (i' == s.i && j' == s.j + 1 && s.j < |c.rf| && c.rf[s.j] == GapFlag)
    ensures Ends(SnpPositions(c.rf[..j']), c.refOff, s.n.refFirst, s.n.refLast)
    ensures Ends(SnpPositions(c.qf[..i']), c.qryOff, s.n.qryFirst, s.n.qryLast)
  {
    if i' > s.i {
      PositionsStep(c.qf, s.i);
    } else {
      PositionsStep(c.rf, s.j);
    }
  }

  /** One pass of the loop keeps the first and last positions those of the
    * first and last pair. */
  lemma StepEnds(c: Walk, s: WalkState)
    requires Paired(c) && Moving(c, s) && !Done(c, s)
    requires Ends(SnpPositions(c.rf[..s.j]), c.refOff, s.n.refFirst, s.n.refLast)
    requires Ends(SnpPositions(c.qf[..s.i]), c.qryOff, s.n.qryFirst, s.n.qryLast)
    ensures var s' := Step(c, s);
            && Ends(SnpPositions(c.rf[..s'.j]), c.refOff, s'.n.refFirst, s'.n.refLast)
            && Ends(SnpPositions(c.qf[..s'.i]), c.qryOff, s'.n.qryFirst, s'.n.qryLast)
  {
    if s.i < |c.qf| && c.qf[s.i] == GapFlag {
      StepIns(c, s);
      EndsGap(c, s, s.i + 1, s.j);
    } else if s.j < |c.rf| && c.rf[s.j] == SnpFlag {
      StepPair(c, s);
      EndsPair(c, s, Step(c, s).n);
    } else {
      StepDel(c, s);
      EndsGap(c, s, s.i, s.j + 1);
    }
  }

  /** What the walk has written and counted for the flags it has read: the
    * flags match, the pairs carry the match table's flag, the counters
    * count, and the first and last positions are those of the first and
    * last pair. */
  ghost predicate Agrees(c: Walk, s: WalkState)
    requires Paired(c) && Moving(c, s)
  {
    var rp, qp := SnpPositions(c.rf[..s.j]), SnpPositions(c.qf[..s.i]);
    && FlagsMatch(c.rf[..s.j], s.ro) && FlagsMatch(c.qf[..s.i], s.qo)
    && PairsMatch(c, rp, qp, s.ro, s.qo)
    && CountsMatch(c, s)
    && Ends(rp, c.refOff, s.n.refFirst, s.n.refLast) && Ends(qp, c.qryOff, s.n.qryFirst, s.n.qryLast)
  }

  /** One pass of the loop keeps Agrees. */
  lemma StepAgrees(c: Walk, s: WalkState)
    requires Paired(c) && Moving(c, s) && !Done(c, s) && Agrees(c, s)
    ensures Agrees(c, Step(c, s))
  {
    StepFlags(c, s);
    StepPairs(c, s);
    StepCounts(c, s);
    StepEnds(c, s);
  }

  /** The walk to the end keeps Agrees. */
  lemma {:induction false} RunAgrees(c: Walk, s: WalkState)
    requires Paired(c) && Moving(c, s) && Agrees(c, s)
    ensures Agrees(c, Run(c, s))
    decreases |c.rf| + |c.qf| - s.i - s.j
  {
    if !Done(c, s) {
      StepAgrees(c, s);
      RunAgrees(c, Step(c, s));
    }
  }

  /** What the whole walk writes: a gap exactly where HirschbergFun left
    * one and a flag from 1 to 3 elsewhere; the k-th aligned reference base
    * and the k-th aligned query base paired under the same flag,
    * defMatchFlag when the match table calls them a match; an insertion per
    * query gap, a deletion per reference gap and a SNP or match per pair;
    * and the first and last pairs as the first and last aligned positions. */
  lemma WalkMeaning(c: Walk)
    requires Paired(c)
    ensures var r := Run(c, Start());
            var rp, qp := SnpPositions(c.rf), SnpPositions(c.qf);
            && FlagsMatch(c.rf, r.ro) && FlagsMatch(c.qf, r.qo)
            && PairsMatch(c, rp, qp, r.ro, r.qo)
            && r.n.numIns == CountFlag(c.qf, GapFlag) && r.n.numDels == CountFlag(c.rf, GapFlag)
            && r.n.numSnps + r.n.numMatches == CountFlag(c.rf, SnpFlag)
            && r.n.numSnps == CountFlag(r.ro, SnpFlag) && r.n.numMatches == CountFlag(r.ro, MatchFlag)
            && r.n.numSnps == CountFlag(r.qo, SnpFlag) && r.n.numMatches == CountFlag(r.qo, MatchFlag)
            && Ends(rp, c.refOff, r.n.refFirst, r.n.refLast) && Ends(qp, c.qryOff, r.n.qryFirst, r.n.qryLast)
  {
    RunAgrees(c, Start());
    var r := Run(c, Start());
    assert c.rf[..r.j] == c.rf && c.qf[..r.i] == c.qf;
  }

  lemma WalkFlags(c: Walk)
    requires Paired(c)
    ensures var r := Run(c, Start());
            FlagsMatch(c.rf, r.ro) && FlagsMatch(c.qf, r.qo)
  {
    RunAgrees(c, Start());
    var r := Run(c, Start());
    assert c.rf[..r.j] == c.rf && c.qf[..r.i] == c.qf;
  }

  /** The start coordinate hirschToAlnST records: the first aligned base, or
    * the sequence length when nothing aligned. */
  function AlnStart(first: int, len: nat): int {
    if first >= 0 then first else len
  }

  /** The end coordinate as hirschToAlnST records it: the last aligned base
    * when it is above 0, the sequence length otherwise (the last-base
    * counter starts at 0, so 0 stands for "no aligned base"). */
  function AlnEndAsWritten(last: int, len: nat): int {
    if last > 0 then last else len
  }

  /** The end coordinate as intended: the last aligned base, the sequence
    * length only when nothing aligned. */
  function AlnEnd(last: int, len: nat): int {
    if last >= 0 then last else len
  }

  /** The alnStruct hirschToAlnST builds from the walk over c, for sequences
    * of refLen and qryLen bases: soft masks outside the windows, the
    * walk's flags inside them, the end flag after the last base; the start
    * and end of the alignment; the counters; lenAln as their sum. */
  function HirschView(c: Walk, refLen: nat, qryLen: nat): AlnView
    requires Paired(c) && c.refOff + |c.rf| <= refLen && c.qryOff + |c.qf| <= qryLen
  {
    var r := Run(c, Start());
    AlnView(Closed(seq(c.refOff, _ => SoftMaskFlag) + r.ro, refLen),
            Closed(seq(c.qryOff, _ => SoftMaskFlag) + r.qo, qryLen),
            refLen, qryLen,
            AlnStart(r.n.refFirst, refLen), AlnEnd(r.n.refLast, refLen),
            AlnStart(r.n.qryFirst, qryLen), AlnEnd(r.n.qryLast, qryLen),
            r.n.numIns + r.n.numDels + r.n.numSnps + r.n.numMatches,
            r.n.numIns, r.n.numDels, r.n.numSnps, r.n.numMatches)
  }

  lemma CountClosed(off: nat, o: seq<int>, len: nat, f: int)
    requires off + |o| <= len && f != SoftMaskFlag && f != EndAlnFlag
    ensures CountFlag(Closed(seq(off, _ => SoftMaskFlag) + o, len), f) == CountFlag(o, f)
  {
    var head := seq(off, _ => SoftMaskFlag);
    var tail := seq(len - off - |o|, _ => SoftMaskFlag);
    assert Closed(head + o, len) == head + o + tail + [EndAlnFlag];
    CountFlagAppend(head + o + tail, [EndAlnFlag], f);
    CountFlagAppend(head + o, tail, f);
    CountFlagAppend(head, o, f);
    CountFlagConst(off, SoftMaskFlag, f);
    CountFlagConst(len - off - |o|, SoftMaskFlag, f);
    assert [EndAlnFlag][..0] == [];
  }

  lemma ClosedAt(off: nat, o: seq<int>, len: nat)
    requires off + |o| <= len
    ensures var a := Closed(seq(off, _ => SoftMaskFlag) + o, len);
            && a[len] == EndAlnFlag
            && (forall k :: 0 <= k < |o| ==> a[off + k] == o[k])
            && (forall k :: 0 <= k < len && !(off <= k < off + |o|) ==> a[k] == SoftMaskFlag)
  {
  }

  /** The flag arrays of the alnStruct: one flag per base and the end flag
    * after the last, soft masks outside the windows. */
  lemma HirschViewMasks(c: Walk, refLen: nat, qryLen: nat)
    requires Paired(c) && c.refOff + |c.rf| <= refLen && c.qryOff + |c.qf| <= qryLen
    ensures var v := HirschView(c, refLen, qryLen);
            && |v.refAln| == refLen + 1 && |v.qryAln| == qryLen + 1
            && v.refAln[refLen] == EndAlnFlag && v.qryAln[qryLen] == EndAlnFlag
            && (forall k :: 0 <= k < refLen && !(c.refOff <= k < c.refOff + |c.rf|) ==> v.refAln[k] == SoftMaskFlag)
            && (forall k :: 0 <= k < qryLen && !(c.qryOff <= k < c.qryOff + |c.qf|) ==> v.qryAln[k] == SoftMaskFlag)
  {
    var r := Run(c, Start());
    ClosedAt(c.refOff, r.ro, refLen);
    ClosedAt(c.qryOff, r.qo, qryLen);
  }

  /** The flags a hold for the flags f read, from `off` on: a gap exactly
    * where f has one, an aligned base (2 or 3) everywhere else. */
  ghost predicate GapsAt(f: seq<int>, a: seq<int>, off: nat) {
    off + |f| <= |a|
    && forall k :: 0 <= k < |f| ==> (a[off + k] == GapFlag <==> f[k] == GapFlag) && 1 <= a[off + k] <= 3
  }

  lemma SideGaps(f: seq<int>, o: seq<int>, off: nat, len: nat)
    requires FlagsMatch(f, o) && off + |f| <= len
    ensures GapsAt(f, Closed(seq(off, _ => SoftMaskFlag) + o, len), off)
  {
    ClosedAt(off, o, len);
  }

  /** The k-th aligned reference base (at rp[k] in the window, which starts
    * at c.refOff in a) and the k-th aligned query base (at qp[k], from
    * c.qryOff in b) both carry the flag the match table gives the pair. */
  ghost predicate PairsAt(c: Walk, rp: seq<nat>, qp: seq<nat>, a: seq<int>, b: seq<int>)
    requires Paired(c)
  {
    |rp| == |qp|
    && forall k :: 0 <= k < |rp| ==>
         && rp[k] < |c.ref| && qp[k] < |c.qry| && c.refOff + rp[k] < |a| && c.qryOff + qp[k] < |b|
         && a[c.refOff + rp[k]] == PairFlagOf(c, rp[k], qp[k]) && b[c.qryOff + qp[k]] == PairFlagOf(c, rp[k], qp[k])
  }

  lemma PairsClosed(c: Walk, rp: seq<nat>, qp: seq<nat>, ro: seq<int>, qo: seq<int>, refLen: nat, qryLen: nat)
    requires Paired(c) && PairsMatch(c, rp, qp, ro, qo)
    requires c.refOff + |ro| <= refLen && c.qryOff + |qo| <= qryLen
    ensures PairsAt(c, rp, qp, Closed(seq(c.refOff, _ => SoftMaskFlag) + ro, refLen),
                    Closed(seq(c.qryOff, _ => SoftMaskFlag) + qo, qryLen))
  {
    ClosedAt(c.refOff, ro, refLen);
    ClosedAt(c.qryOff, qo, qryLen);
  }

  /** Inside the windows, a gap exactly where HirschbergFun left one and an
    * aligned base (2 or 3) everywhere else. */
  lemma HirschViewGaps(c: Walk, refLen: nat, qryLen: nat)
    requires Paired(c) && c.refOff + |c.rf| <= refLen && c.qryOff + |c.qf| <= qryLen
    ensures var v := HirschView(c, refLen, qryLen);
            GapsAt(c.rf, v.refAln, c.refOff) && GapsAt(c.qf, v.qryAln, c.qryOff)
  {
    WalkFlags(c);
    var r := Run(c, Start());
    SideGaps(c.rf, r.ro, c.refOff, refLen);
    SideGaps(c.qf, r.qo, c.qryOff, qryLen);
  }

  /** Each aligned reference base and its query partner (the k-th with the
    * k-th) carry the same flag, defMatchFlag when the match table calls
    * them a match and defSnpFlag otherwise. */
  lemma HirschViewPairs(c: Walk, refLen: nat, qryLen: nat)
    requires Paired(c) && c.refOff + |c.rf| <= refLen && c.qryOff + |c.qf| <= qryLen
    ensures var v := HirschView(c, refLen, qryLen);
            PairsAt(c, SnpPositions(c.rf), SnpPositions(c.qf), v.refAln, v.qryAln)
  {
    WalkMeaning(c);
    var r := Run(c, Start());
    PairsClosed(c, SnpPositions(c.rf), SnpPositions(c.qf), r.ro, r.qo, refLen, qryLen);
  }

  /** The counters and coordinates of the alnStruct: an insertion per query
    * gap, a deletion per reference gap, a SNP or match per pair, counted
    * as the flag arrays show them; lenAln is the reference window plus the
    * insertions, or the query window plus the deletions; the start and end
    * are the positions of the first and last pairs, in order, or both the
    * sequence length when nothing aligned. */
  lemma HirschViewCounts(c: Walk, refLen: nat, qryLen: nat)
    requires Paired(c) && c.refOff + |c.rf| <= refLen && c.qryOff + |c.qf| <= qryLen
    ensures var v := HirschView(c, refLen, qryLen);
            var rp, qp := SnpPositions(c.rf), SnpPositions(c.qf);
            && v.numIns == CountFlag(c.qf, GapFlag) && v.numDels == CountFlag(c.rf, GapFlag)
            && v.numSnps + v.numMatches == |rp|
            && v.numSnps == CountFlag(v.refAln, SnpFlag) && v.numMatches == CountFlag(v.refAln, MatchFlag)
            && v.numSnps == CountFlag(v.qryAln, SnpFlag) && v.numMatches == CountFlag(v.qryAln, MatchFlag)
            && v.lenAln == |c.rf| + v.numIns && v.lenAln == |c.qf| + v.numDels
            && (rp == [] ==> v.refStart == refLen && v.refEnd == refLen && v.qryStart == qryLen && v.qryEnd == qryLen)
            && (rp != [] ==>
                  && v.refStart == c.refOff + rp[0] && v.refEnd == c.refOff + rp[|rp| - 1] && v.refStart <= v.refEnd
                  && v.qryStart == c.qryOff + qp[0] && v.qryEnd == c.qryOff + qp[|qp| - 1] && v.qryStart <= v.qryEnd)
  {
    WalkMeaning(c);
    var r := Run(c, Start());
    GapOrSnpCount(c.rf);
    GapOrSnpCount(c.qf);
    CountClosed(c.refOff, r.ro, refLen, SnpFlag);
    CountClosed(c.refOff, r.ro, refLen, MatchFlag);
    CountClosed(c.qryOff, r.qo, qryLen, SnpFlag);
    CountClosed(c.qryOff, r.qo, qryLen, MatchFlag);
    SnpPositionsExact(c.rf);
    SnpPositionsExact(c.qf);
  }

  /** As written, the end coordinate loses an alignment whose last aligned
    * base is the first base of the sequence: one reference base aligned to
    * one query base ends at 0, yet hirschToAlnST records the sequence
    * length 1, past the last base, as if nothing had aligned. */
  lemma EndAsWrittenMissesFirstBase()
    ensures var c := Walk([SnpFlag], [SnpFlag], [0], [0], 0, 0, seq(MatrixCol, _ => seq(MatrixCol, _ => 0)));
            && Paired(c) && SnpPositions(c.rf) == [0]
            && Run(c, Start()).n.refLast == 0
            && AlnEndAsWritten(Run(c, Start()).n.refLast, 1) == 1
            && HirschView(c, 1, 1).refEnd == 0
  {
    var c := Walk([SnpFlag], [SnpFlag], [0], [0], 0, 0, seq(MatrixCol, _ => seq(MatrixCol, _ => 0)));
    assert CountFlag(c.rf, SnpFlag) == 1 && CountFlag(c.qf, SnpFlag) == 1 by {
      assert c.rf[..0] == [];
    }
    assert Paired(c);
    var s1 := Step(c, Start());
    assert s1.n.refLast == 0 && Done(c, s1);
    assert Run(c, Start()) == s1;
    assert c.rf[..0] == [];
  }

  // ---------------------------------------------------------------------------
  // hirschToAlnST on arrays
  // ---------------------------------------------------------------------------

  /** What hirschToAlnST reads: the flags HirschbergFun left, each array
    * closed by an end flag; the bases of the two windows of the sequences,
    * each window starting before the end of its sequence; and the match
    * table of alnSet. */
  ghost predicate Reads(c: Walk, alnSet: AlnSet, refSeq: seq<uchar>, refOffset: nat, qrySeq: seq<uchar>,
                        qryOffset: nat, refAlignment: array<int>, qryAlignment: array<int>)
    reads alnSet, alnSet.matchMatrix, refAlignment, qryAlignment
  {
    && alnSet.Valid()
    && refAlignment[..] == c.rf + [EndAlnFlag] && qryAlignment[..] == c.qf + [EndAlnFlag]
    && c.refOff == refOffset && refOffset < |refSeq| && refOffset + |c.rf| <= |refSeq|
    && c.qryOff == qryOffset && qryOffset < |qrySeq| && qryOffset + |c.qf| <= |qrySeq|
    && c.ref == refSeq[refOffset..refOffset + |c.rf|] && c.qry == qrySeq[qryOffset..qryOffset + |c.qf|]
    && c.matches == alnSet.MatchRows()
  }

  /** An output array of hirschToAlnST while the walk runs: the flags
    * written so far from `off` on, 0 (from calloc) everywhere else. */
  ghost predicate Holds(aln: array<int>, off: nat, o: seq<int>)
    reads aln
  {
    forall k :: 0 <= k < aln.Length ==> aln[k] == (if off <= k < off + |o| then o[k - off] else 0)
  }

  /** The flags and bases under the walk at reference flag j and query flag
    * i, and the match table's verdict on the two bases. */
  lemma ReadsAt(c: Walk, alnSet: AlnSet, refSeq: seq<uchar>, refOffset: nat, qrySeq: seq<uchar>, qryOffset: nat,
                refAlignment: array<int>, qryAlignment: array<int>, i: nat, j: nat)
    requires Reads(c, alnSet, refSeq, refOffset, qrySeq, qryOffset, refAlignment, qryAlignment) && Paired(c)
    requires j <= |c.rf| && i <= |c.qf|
    ensures j < refAlignment.Length && i < qryAlignment.Length
    ensures refAlignment[j] == (if j < |c.rf| then c.rf[j] else EndAlnFlag)
    ensures qryAlignment[i] == (if i < |c.qf| then c.qf[i] else EndAlnFlag)
    ensures j < |c.rf| && i < |c.qf| ==>
              && refOffset + j < |refSeq| && qryOffset + i < |qrySeq|
              && refSeq[refOffset + j] == c.ref[j] && qrySeq[qryOffset + i] == c.qry[i]
              && alnSet.MatchOrSnp(c.qry[i], c.ref[j]) == c.matches[c.qry[i]][c.ref[j]]
  {
    assert refAlignment[j] == (c.rf + [EndAlnFlag])[j];
    assert qryAlignment[i] == (c.qf + [EndAlnFlag])[i];
  }

  /** One flag written at the next position of an output array. */
  method Put(aln: array<int>, off: nat, index: nat, ghost o: seq<int>, f: int)
    requires Holds(aln, off, o) && index == off + |o| < aln.Length
    modifies aln
    ensures Holds(aln, off, o + [f])
  {
    aln[index] := f;
  }

  /** One pass of the loop of hirschToAlnST. */
  method WalkStep(alnSet: AlnSet, refSeq: seq<uchar>, refOffset: nat, qrySeq: seq<uchar>, qryOffset: nat,
                  refAlignment: array<int>, qryAlignment: array<int>, refOut: array<int>, qryOut: array<int>,
                  i: nat, j: nat, n: Counts, ghost c: Walk, ghost s: WalkState)
    returns (i': nat, j': nat, n': Counts, ghost s': WalkState)
    requires Reads(c, alnSet, refSeq, refOffset, qrySeq, qryOffset, refAlignment, qryAlignment) && Paired(c)
    requires Moving(c, s) && !Done(c, s) && s.i == i && s.j == j && s.n == n
    requires refOut.Length == |refSeq| + 1 && qryOut.Length == |qrySeq| + 1 && refOut != qryOut
    requires refOut != refAlignment && refOut != qryAlignment && qryOut != refAlignment && qryOut != qryAlignment
    requires Holds(refOut, refOffset, s.ro) && Holds(qryOut, qryOffset, s.qo)
    modifies refOut, qryOut
    ensures s' == Step(c, s) && i' == s'.i && j' == s'.j && n' == s'.n
    ensures Holds(refOut, refOffset, s'.ro) && Holds(qryOut, qryOffset, s'.qo)
  {
    ReadsAt(c, alnSet, refSeq, refOffset, qrySeq, qryOffset, refAlignment, qryAlignment, i, j);
    s' := Step(c, s);
    if qryAlignment[i] == GapFlag {
      StepIns(c, s);
      Put(qryOut, qryOffset, qryOffset + i, s.qo, GapFlag);
      i', j', n' := i + 1, j, n.(numIns := n.numIns + 1);
    } else if refAlignment[j] == SnpFlag {
      StepPair(c, s);
      ReadsAt(c, alnSet, refSeq, refOffset, qrySeq, qryOffset, refAlignment, qryAlignment, i, j);
      var f := if alnSet.MatchOrSnp(qrySeq[qryOffset + i], refSeq[refOffset + j]) != 0 then MatchFlag else SnpFlag;
      Put(refOut, refOffset, refOffset + j, s.ro, f);
      Put(qryOut, qryOffset, qryOffset + i, s.qo, f);
      n' := n.(numSnps := if f == SnpFlag then n.numSnps + 1 else n.numSnps,
               numMatches := if f == MatchFlag then n.numMatches + 1 else n.numMatches,
               refFirst := if n.refFirst < 0 then refOffset + j else n.refFirst, refLast := refOffset + j,
               qryFirst := if n.qryFirst < 0 then qryOffset + i else n.qryFirst, qryLast := qryOffset + i);
      i', j' := i + 1, j + 1;
    } else if refAlignment[j] == GapFlag {
      StepDel(c, s);
      Put(refOut, refOffset, refOffset + j, s.ro, GapFlag);
      i', j', n' := i, j + 1, n.(numDels := n.numDels + 1);
    } else {
      NotStuck(c, s);
      assert false;
    }
  }

  /** The loop of hirschToAlnST: the walk until both flag arrays reach their
    * end flags, writing each flag at its base's position in the output. */
  method CopyAln(alnSet: AlnSet, refSeq: seq<uchar>, refOffset: nat, qrySeq: seq<uchar>, qryOffset: nat,
                 refAlignment: array<int>, qryAlignment: array<int>, refOut: array<int>, qryOut: array<int>,
                 ghost c: Walk)
    returns (i: nat, j: nat, n: Counts)
    requires Reads(c, alnSet, refSeq, refOffset, qrySeq, qryOffset, refAlignment, qryAlignment) && Paired(c)
    requires refOut.Length == |refSeq| + 1 && qryOut.Length == |qrySeq| + 1 && refOut != qryOut
    requires refOut != refAlignment && refOut != qryAlignment && qryOut != refAlignment && qryOut != qryAlignment
    requires Holds(refOut, refOffset, []) && Holds(qryOut, qryOffset, [])
    modifies refOut, qryOut
    ensures var r := Run(c, Start());
            && i == r.i && j == r.j && n == r.n
            && Holds(refOut, refOffset, r.ro) && Holds(qryOut, qryOffset, r.qo)
  {
    ghost var s := Start();
    i, j, n := 0, 0, Counts(0, 0, 0, 0, -1, -1, -1, -1);
    while refAlignment[j] != EndAlnFlag || qryAlignment[i] != EndAlnFlag
      invariant Moving(c, s) && s.i == i && s.j == j && s.n == n
      invariant Holds(refOut, refOffset, s.ro) && Holds(qryOut, qryOffset, s.qo)
      invariant Run(c, s) == Run(c, Start())
      decreases |c.rf| + |c.qf| - i - j
    {
      i, j, n, s := WalkStep(alnSet, refSeq, refOffset, qrySeq, qryOffset, refAlignment, qryAlignment,
                             refOut, qryOut, i, j, n, c, s);
    }
    assert refAlignment[j] == (c.rf + [EndAlnFlag])[j] && qryAlignment[i] == (c.qf + [EndAlnFlag])[i];
  }

  /** Fun-02 Sec-03 Sub-05 and Sec-04 for one output array: the end flag at
    * `index`, where the walk stopped; soft masks from there to the end of
    * the sequence (over the end flag, the calloc'd 0 after the last base
    * closing the array instead); then soft masks from the first base up to
    * the first flag already set. */
  method CloseFlags(aln: array<int>, index: nat, len: nat, off: nat, ghost o: seq<int>)
    requires aln.Length == len + 1 && off < len && index == off + |o| <= len
    requires Holds(aln, off, o)
    requires forall k :: 0 <= k < |o| ==> 1 <= o[k] <= 3
    modifies aln
    ensures aln[..] == Closed(seq(off, _ => SoftMaskFlag) + o, len)
  {
    aln[index] := EndAlnFlag;
    var p := index;
    while p < len
      invariant index <= p <= len
      invariant forall k :: 0 <= k < aln.Length ==>
                  aln[k] == (if off <= k < index then o[k - off] else if index <= k < p then SoftMaskFlag else 0)
    {
      aln[p] := SoftMaskFlag;
      p := p + 1;
    }
    p := 0;
    while aln[p] == 0
      invariant 0 <= p <= off
      invariant forall k :: 0 <= k < aln.Length ==>
                  aln[k] == (if k < p then SoftMaskFlag else if k < off then 0
                             else if k < index then o[k - off] else if k < len then SoftMaskFlag else 0)
      decreases off - p
    {
      aln[p] := SoftMaskFlag;
      p := p + 1;
    }
    assert forall k :: 0 <= k < aln.Length ==> aln[k] == Closed(seq(off, _ => SoftMaskFlag) + o, len)[k];
  }

  /** hirschToAlnST: the alnStruct for the flags HirschbergFun left in
    * refAlignment and qryAlignment, or null when an allocation fails. */
  method HirschToAlnST(alnSet: AlnSet, refSeq: seq<uchar>, refOffset: nat, qrySeq: seq<uchar>, qryOffset: nat,
                       refAlignment: array<int>, qryAlignment: array<int>, ghost c: Walk, allocFails: bool)
    returns (a: AlnStruct?)
    requires Reads(c, alnSet, refSeq, refOffset, qrySeq, qryOffset, refAlignment, qryAlignment) && Paired(c)
    ensures allocFails <==> a == null
    ensures a != null ==>
      && fresh(a) && a.refAln != null && a.qryAln != null && fresh(a.refAln) && fresh(a.qryAln)
      && a.View() == HirschView(c, |refSeq|, |qrySeq|)
  {
    if allocFails {
      return null;
    }
    var refOut := new int[|refSeq| + 1](_ => 0);
    var qryOut := new int[|qrySeq| + 1](_ => 0);
    var i, j, n := CopyAln(alnSet, refSeq, refOffset, qrySeq, qryOffset, refAlignment, qryAlignment,
                           refOut, qryOut, c);
    WalkFlags(c);
    ghost var r := Run(c, Start());
    CloseFlags(refOut, refOffset + j, |refSeq|, refOffset, r.ro);
    CloseFlags(qryOut, qryOffset + i, |qrySeq|, qryOffset, r.qo);
    var v := AlnView(refOut[..], qryOut[..], |refSeq|, |qrySeq|,
                     AlnStart(n.refFirst, |refSeq|), AlnEnd(n.refLast, |refSeq|),
                     AlnStart(n.qryFirst, |qrySeq|), AlnEnd(n.qryLast, |qrySeq|),
                     n.numIns + n.numDels + n.numSnps + n.numMatches, n.numIns, n.numDels, n.numSnps, n.numMatches);
    a := new AlnStruct.Holding(refOut, qryOut, v);
  }
}
