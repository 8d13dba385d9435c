// hirschberg/hirschberg.h: the divide-and-conquer Hirschberg alignment.
// HirschbergFun splits the query in half, scores the first half forwards and
// the second half backwards against the reference region, cuts the
// reference where the summed scores peak and recurses on both halves; the
// leaves are runs of gaps or a single base placed by positionSingleBase.
// The alignment is left as one flag array per sequence.

module HirschbergAln {
  import opened DataTypeShortHand
  import opened AlnSetStruct
  import opened AlnStructs
  import opened AlnRecurrence
  import opened GenHirsch
  import opened HirschScore

  /** The two flag arrays of a Hirschberg alignment. */
  datatype Aln = Aln(refAln: seq<int>, qryAln: seq<int>)

  /** The window [start, start + len) of a flag array's contents. */
  function Part(s: seq<int>, start: nat, len: nat): seq<int>
    requires start + len <= |s|
  {
    s[start..start + len]
  }

  // ---------------------------------------------------------------------------
  // The midpoint
  // ---------------------------------------------------------------------------

  /** The score of each cut of the reference: forward plus reverse row. */
  function SplitScores(fwd: seq<int>, back: seq<int>): (t: seq<int>)
    requires |fwd| == |back|
    ensures |t| == |fwd|
  {
    seq(|fwd|, k requires 0 <= k < |fwd| => fwd[k] + back[k])
  }

  /** The cut the midpoint loop holds after looking at cuts 1..m - 1: it
    * starts at the last cut and moves only to a strictly better one. */
  function ScanMid(t: seq<int>, m: nat): (r: nat)
    requires 2 <= |t| && 1 <= m <= |t| - 1
    ensures r == |t| - 1 || 1 <= r < m
    ensures t[|t| - 1] <= t[r] && forall k :: 1 <= k < m ==> t[k] <= t[r]
    ensures r != |t| - 1 ==> t[|t| - 1] < t[r] && forall k :: 1 <= k < r ==> t[k] < t[r]
    decreases m
  {
    if m == 1 then |t| - 1
    else
      var p := ScanMid(t, m - 1);
      if t[m - 1] > t[p] then m - 1 else p
  }

  /** Where HirschbergFun cuts the reference: the best cut, preferring the
    * last cut, then the earliest one, and taking cut 0 (everything to the
    * second half) only when it is strictly better than every other. */
  function MidPoint(t: seq<int>): (r: nat)
    requires |t| >= 2
    ensures r < |t|
  {
    var m := ScanMid(t, |t| - 1);
    if t[0] > t[m] then 0 else m
  }

  /** The midpoint is a best cut and obeys the tie rules. */
  lemma MidPointBest(t: seq<int>)
    requires |t| >= 2
    ensures var r := MidPoint(t);
            (forall k :: 0 <= k < |t| ==> t[k] <= t[r])
            && (r == 0 <==> forall k :: 1 <= k < |t| ==> t[k] < t[0])
            && (r != 0 ==> r == |t| - 1 || (t[|t| - 1] < t[r] && forall k :: 1 <= k < r ==> t[k] < t[r]))
  {
    var m := ScanMid(t, |t| - 1);
  }

  /** The tie rules pin the cut down: any best cut that obeys them is the
    * midpoint. */
  lemma MidPointUnique(t: seq<int>, r: nat)
    requires |t| >= 2 && r < |t|
    requires forall k :: 0 <= k < |t| ==> t[k] <= t[r]
    requires r == 0 <==> forall k :: 1 <= k < |t| ==> t[k] < t[0]
    requires r != 0 ==> r == |t| - 1 || (t[|t| - 1] < t[r] && forall k :: 1 <= k < r ==> t[k] < t[r])
    ensures r == MidPoint(t)
  {
    MidPointBest(t);
  }

  // ---------------------------------------------------------------------------
  // The alignment HirschbergFun leaves
  // ---------------------------------------------------------------------------

  /** The cut HirschbergFun makes in refSeq[refStart..refStart + refLen)
    * once it has scored the first half of the query region forwards and
    * the second half backwards. */
  function Cut(g: Params, refSeq: seq<uchar>, refStart: nat, refLen: nat,
               qrySeq: seq<uchar>, qryStart: nat, qryLen: nat): (mid: nat)
    requires IsTable(g.table) && IsIndexSeq(refSeq) && IsIndexSeq(qrySeq)
    requires refLen >= 1 && refStart + refLen <= |refSeq| && qryStart + qryLen <= |qrySeq|
    ensures mid <= refLen
  {
    var ref := refSeq[refStart..refStart + refLen];
    var h := qryLen / 2;
    MidPoint(SplitScores(ForRow(g, ref, qrySeq[qryStart..qryStart + h]),
                         BackRow(g, ref, qrySeq[qryStart + h..qryStart + h + (qryLen - h)])))
  }

  /** A window of each sequence: [refStart, refStart + refLen) of the
    * reference and [qryStart, qryStart + qryLen) of the query. */
  datatype Window = Window(refStart: nat, refLen: nat, qryStart: nat, qryLen: nat)

  /** The first windows after cutting the reference at `mid`: the query
    * splits at half its length. */
  function LeftOf(w: Window, mid: nat): Window {
    Window(w.refStart, mid, w.qryStart, w.qryLen / 2)
  }

  /** The second windows after cutting the reference at `mid`. */
  function RightOf(w: Window, mid: nat): Window
    requires mid <= w.refLen
  {
    Window(w.refStart + mid, w.refLen - mid, w.qryStart + w.qryLen / 2, w.qryLen - w.qryLen / 2)
  }

  /** A rule that says where to cut the reference window of a pair of
    * windows. */
  type CutRule = Window -> nat

  /** The rule cuts inside the reference window. */
  ghost predicate CutsWithin(cut: CutRule) {
    forall w: Window :: cut(w) <= w.refLen
  }

  /** The rule HirschbergFun follows on refSeq and qrySeq: Cut wherever the
    * scoring passes can run. */
  function HirschCuts(g: Params, refSeq: seq<uchar>, qrySeq: seq<uchar>): (cut: CutRule)
    requires IsTable(g.table) && IsIndexSeq(refSeq) && IsIndexSeq(qrySeq)
    ensures CutsWithin(cut)
  {
    (w: Window) =>
      if 1 <= w.refLen && w.refStart + w.refLen <= |refSeq| && w.qryStart + w.qryLen <= |qrySeq|
      then Cut(g, refSeq, w.refStart, w.refLen, qrySeq, w.qryStart, w.qryLen)
      else 0
  }

  /** A rule that says where a lone base lands in the other sequence's
    * window: an offset into the query window when the reference window
    * holds one base, into the reference window otherwise. */
  type PlaceRule = Window -> nat

  /** The rule places the lone base inside the window it goes to. */
  ghost predicate PlacesWithin(place: PlaceRule) {
    forall w: Window :: 1 <= w.refLen && 1 <= w.qryLen ==>
      place(w) < if w.refLen == 1 then w.qryLen else w.refLen
  }

  /** Where positionSingleBase puts a lone base: a lone reference base goes
    * by its scores against the query window, a lone query base by its
    * scores against the reference window (the arguments positionSingleBase
    * receives there are swapped). */
  function Place(g: Params, refSeq: seq<uchar>, refStart: nat, refLen: nat,
                 qrySeq: seq<uchar>, qryStart: nat, qryLen: nat): (k: nat)
    requires IsTable(g.table) && IsIndexSeq(refSeq) && IsIndexSeq(qrySeq)
    requires 1 <= refLen && 1 <= qryLen && (refLen == 1 || qryLen == 1)
    requires refStart + refLen <= |refSeq| && qryStart + qryLen <= |qrySeq|
    ensures k < if refLen == 1 then qryLen else refLen
  {
    if refLen == 1 then
      var sq := qrySeq[qryStart..qryStart + qryLen];
      assert forall i :: 0 <= i < |sq| ==> sq[i] == qrySeq[qryStart + i];
      PlaceOffset(PlaceBeats(g, refSeq[refStart], sq))
    else
      var sq := refSeq[refStart..refStart + refLen];
      assert forall i :: 0 <= i < |sq| ==> sq[i] == refSeq[refStart + i];
      PlaceOffset(PlaceBeats(g, qrySeq[qryStart], sq))
  }

  /** The rule HirschbergFun follows on refSeq and qrySeq: Place wherever a
    * window holds a lone base. */
  function HirschPlaces(g: Params, refSeq: seq<uchar>, qrySeq: seq<uchar>): (place: PlaceRule)
    requires IsTable(g.table) && IsIndexSeq(refSeq) && IsIndexSeq(qrySeq)
    ensures PlacesWithin(place)
  {
    (w: Window) =>
      if 1 <= w.refLen && 1 <= w.qryLen && (w.refLen == 1 || w.qryLen == 1)
         && w.refStart + w.refLen <= |refSeq| && w.qryStart + w.qryLen <= |qrySeq|
      then Place(g, refSeq, w.refStart, w.refLen, qrySeq, w.qryStart, w.qryLen)
      else 0
  }

  /** The rules agree with Cut and Place wherever those apply. */
  ghost predicate Follows(g: Params, refSeq: seq<uchar>, qrySeq: seq<uchar>, cut: CutRule, place: PlaceRule)
  {
    IsTable(g.table) && IsIndexSeq(refSeq) && IsIndexSeq(qrySeq)
    && (forall rs: nat, rl: nat, qs: nat, ql: nat {:trigger Cut(g, refSeq, rs, rl, qrySeq, qs, ql)} ::
          1 <= rl && rs + rl <= |refSeq| && qs + ql <= |qrySeq| ==>
          cut(Window(rs, rl, qs, ql)) == Cut(g, refSeq, rs, rl, qrySeq, qs, ql))
    && (forall rs: nat, rl: nat, qs: nat, ql: nat {:trigger Place(g, refSeq, rs, rl, qrySeq, qs, ql)} ::
          1 <= rl && 1 <= ql && (rl == 1 || ql == 1) && rs + rl <= |refSeq| && qs + ql <= |qrySeq| ==>
          place(Window(rs, rl, qs, ql)) == Place(g, refSeq, rs, rl, qrySeq, qs, ql))
  }

  /** HirschCuts and HirschPlaces are such rules. */
  lemma HirschRulesFollow(g: Params, refSeq: seq<uchar>, qrySeq: seq<uchar>)
    requires IsTable(g.table) && IsIndexSeq(refSeq) && IsIndexSeq(qrySeq)
    ensures Follows(g, refSeq, qrySeq, HirschCuts(g, refSeq, qrySeq), HirschPlaces(g, refSeq, qrySeq))
  {
  }

  /** The flags HirschbergFun writes when one window is empty or holds a
    * lone base: gaps against nothing, a pair for two lone bases, and a lone
    * base placed by `place` with gaps around it. */
  function Leaf(place: PlaceRule, w: Window): (a: Aln)
    requires PlacesWithin(place) && (w.refLen <= 1 || w.qryLen <= 1)
    ensures |a.refAln| == w.refLen && |a.qryAln| == w.qryLen
    ensures GapOrSnp(a.refAln) && GapOrSnp(a.qryAln)
    ensures CountFlag(a.refAln, SnpFlag) == CountFlag(a.qryAln, SnpFlag)
  {
    LeafBalanced(place, w);
    if w.refLen == 0 then Aln([], seq(w.qryLen, _ => GapFlag))
    else if w.qryLen == 0 then Aln(seq(w.refLen, _ => GapFlag), [])
    else if w.refLen == 1 then
      if w.qryLen == 1 then Aln([SnpFlag], [SnpFlag])
      else Aln([SnpFlag], PlacedFlags(w.qryLen, place(w)))
    else
      Aln(PlacedFlags(w.refLen, place(w)), [SnpFlag])
  }

  /** The flags HirschbergFun writes for the windows `w` when it cuts the
    * reference by `cut` and places lone bases by `place`. Whatever the
    * rules, the arrays hold only gaps and aligned bases, and both hold
    * equally many aligned bases, so the k-th aligned reference base pairs
    * with the k-th aligned query base. */
  function Hirsch(cut: CutRule, place: PlaceRule, w: Window): (a: Aln)
    requires CutsWithin(cut) && PlacesWithin(place)
    ensures |a.refAln| == w.refLen && |a.qryAln| == w.qryLen
    ensures GapOrSnp(a.refAln) && GapOrSnp(a.qryAln)
    ensures CountFlag(a.refAln, SnpFlag) == CountFlag(a.qryAln, SnpFlag)
    decreases w.qryLen
  {
    if w.refLen <= 1 || w.qryLen <= 1 then Leaf(place, w)
    else
      var mid := cut(w);
      var left := Hirsch(cut, place, LeftOf(w, mid));
      var right := Hirsch(cut, place, RightOf(w, mid));
      GapOrSnpAppend(left.refAln, right.refAln);
      GapOrSnpAppend(left.qryAln, right.qryAln);
      CountFlagAppend(left.refAln, right.refAln, SnpFlag);
      CountFlagAppend(left.qryAln, right.qryAln, SnpFlag);
      Aln(left.refAln + right.refAln, left.qryAln + right.qryAln)
  }

  /** The leaves hold only gaps and aligned bases and pair their aligned
    * bases: a gap run has none, a lone base pairs with the one base placed
    * against it. */
  lemma LeafBalanced(place: PlaceRule, w: Window)
    requires PlacesWithin(place) && (w.refLen <= 1 || w.qryLen <= 1)
    ensures w.refLen == 0 ==> GapOrSnp(seq(w.qryLen, _ => GapFlag)) && CountFlag(seq(w.qryLen, _ => GapFlag), SnpFlag) == 0
    ensures w.qryLen == 0 ==> GapOrSnp(seq(w.refLen, _ => GapFlag)) && CountFlag(seq(w.refLen, _ => GapFlag), SnpFlag) == 0
    ensures CountFlag([SnpFlag], SnpFlag) == 1
    ensures w.refLen == 1 && w.qryLen > 1 ==> var f := PlacedFlags(w.qryLen, place(w)); GapOrSnp(f) && CountFlag(f, SnpFlag) == 1
    ensures w.refLen > 1 && w.qryLen == 1 ==> var f := PlacedFlags(w.refLen, place(w)); GapOrSnp(f) && CountFlag(f, SnpFlag) == 1
  {
    CountFlagConst(w.qryLen, GapFlag, SnpFlag);
    CountFlagConst(w.refLen, GapFlag, SnpFlag);
    CountOne(SnpFlag, SnpFlag);
    if w.refLen == 1 && w.qryLen > 1 {
      PlacedOnePair(w.qryLen, place(w));
    }
    if w.refLen > 1 && w.qryLen == 1 {
      PlacedOnePair(w.refLen, place(w));
    }
  }

  // ---------------------------------------------------------------------------
  // HirschbergFun
  // ---------------------------------------------------------------------------

  /** The gap loops of the two leaf cases. */
  method FillGaps(a: array<int>, start: nat, len: nat)
    requires start + len <= a.Length
    modifies a
    ensures a[start..start + len] == seq(len, _ => GapFlag)
    ensures forall k :: 0 <= k < a.Length && !(start <= k < start + len) ==> a[k] == old(a[k])
  {
    var k := start;
    while k < start + len
      invariant start <= k <= start + len
      invariant forall j :: start <= j < k ==> a[j] == GapFlag
      invariant forall j :: 0 <= j < a.Length && !(start <= j < k) ==> a[j] == old(a[j])
    {
      a[k] := GapFlag;
      k := k + 1;
    }
  }

  /** The midpoint loop's state before position u: the cells before u and
    * the last cell hold their cut scores, the cells from u on still the
    * forward row, and m is the best cell so far. */
  ghost predicate MidState(forRow: array<int>, refStart: nat, refLen: nat, fwd: seq<int>, t: seq<int>, u: nat, m: nat)
    reads forRow
  {
    refLen >= 1 && |t| == refLen + 1 && |fwd| == refLen + 1 && refStart + refLen <= forRow.Length
    && refStart <= u <= refStart + refLen - 1 && refStart <= m <= refStart + refLen - 1
    && m - refStart + 1 == ScanMid(t, u - refStart + 1)
    && (forall k :: refStart <= k < u ==> forRow[k] == t[k - refStart + 1])
    && (forall k :: u <= k < refStart + refLen - 1 ==> forRow[k] == fwd[k - refStart + 1])
    && forRow[refStart + refLen - 1] == t[refLen]
  }

  /** One pass of the midpoint loop. */
  method MidStep(forRow: array<int>, revRow: array<int>, refStart: nat, refLen: nat,
                 ghost fwd: seq<int>, ghost back: seq<int>, ghost t: seq<int>, u: nat, m: nat)
    returns (m': nat)
    requires forRow != revRow && refStart + refLen <= revRow.Length
    requires MidState(forRow, refStart, refLen, fwd, t, u, m) && u < refStart + refLen - 1
    requires |back| == refLen + 1 && forall k :: 0 <= k <= refLen ==> t[k] == fwd[k] + back[k]
    requires forall k :: refStart <= k < refStart + refLen ==> revRow[k] == back[k - refStart]
    modifies forRow
    ensures MidState(forRow, refStart, refLen, fwd, t, u + 1, m')
    ensures forRow[..] == old(forRow[..])[u := t[u - refStart + 1]]
  {
    forRow[u] := forRow[u] + revRow[u + 1];
    m' := m;
    if forRow[u] > forRow[m] {
      m' := u;
    }
  }

  /** The midpoint loop: adds the reverse row into the forward row (the
    * gap column on its own) and picks the cut MidPoint describes; t is the
    * cut scores, forward plus reverse row. */
  method FindMidPoint(forRow: array<int>, revRow: array<int>, refStart: nat, refLen: nat,
                      forGap: int, revGap: int, ghost fwd: seq<int>, ghost back: seq<int>, ghost t: seq<int>)
    returns (mid: nat)
    requires forRow != revRow && refLen >= 1
    requires refStart + refLen <= forRow.Length && refStart + refLen <= revRow.Length
    requires |fwd| == refLen + 1 && |back| == refLen + 1 && |t| == refLen + 1
    requires forall k :: 0 <= k <= refLen ==> t[k] == fwd[k] + back[k]
    requires forall k :: refStart <= k < refStart + refLen ==> forRow[k] == fwd[k - refStart + 1]
    requires forall k :: refStart <= k < refStart + refLen ==> revRow[k] == back[k - refStart]
    requires forGap == fwd[0] && revGap == back[refLen]
    modifies forRow
    ensures mid == MidPoint(t)
    ensures forall k :: refStart <= k < refStart + refLen ==> forRow[k] == t[k - refStart + 1]
    ensures forall k :: 0 <= k < forRow.Length && !(refStart <= k < refStart + refLen) ==> forRow[k] == old(forRow[k])
  {
    var last := refStart + refLen - 1;
    forRow[last] := forRow[last] + revGap;
    var m: nat := last;
    var u: nat := refStart;
    while u < last
      invariant MidState(forRow, refStart, refLen, fwd, t, u, m)
      invariant forall k :: 0 <= k < forRow.Length && !(refStart <= k < refStart + refLen) ==> forRow[k] == old(forRow[k])
    {
      m := MidStep(forRow, revRow, refStart, refLen, fwd, back, t, u, m);
      u := u + 1;
    }
    var gapCol := forGap + revRow[refStart];
    if gapCol > forRow[m] {
      mid := 0;
    } else {
      mid := m + 1 - refStart;
    }
  }

  /** An array window read as a sequence, cell by cell. */
  lemma WindowPoints(a: array<int>, start: nat, len: nat, s: seq<int>)
    requires start + len <= a.Length && a[start..start + len] == s
    ensures forall k :: start <= k < start + len ==> a[k] == s[k - start]
  {
    forall k | start <= k < start + len
      ensures a[k] == s[k - start]
    {
      assert a[start..start + len][k - start] == a[k];
    }
  }

  /** The forward pass of section 3 of HirschbergFun, over the first
    * `h` query bases: forRow holds the forward row fwd past its gap column
    * forGap. */
  method ForwardHalf(alnSet: AlnSet, ghost g: Params,
                     refSeq: seq<uchar>, refStart: nat, refLen: nat,
                     qrySeq: seq<uchar>, qryStart: nat, h: nat, forRow: array<int>)
    returns (forGap: int, ghost fwd: seq<int>)
    requires ParamsMatch(g, alnSet) && IsIndexSeq(refSeq) && IsIndexSeq(qrySeq)
    requires refLen >= 1 && refStart + refLen <= |refSeq| && qryStart + h <= |qrySeq|
    requires refStart + refLen <= forRow.Length
    modifies forRow
    ensures fwd == ForRow(g, refSeq[refStart..refStart + refLen], qrySeq[qryStart..qryStart + h])
    ensures |fwd| == refLen + 1 && forGap == fwd[0]
    ensures forall k :: refStart <= k < refStart + refLen ==> forRow[k] == fwd[k - refStart + 1]
  {
    fwd := ForRow(g, refSeq[refStart..refStart + refLen], qrySeq[qryStart..qryStart + h]);
    forGap := ScoreHirschForNoGap(alnSet, g, refSeq, refStart, refLen, qrySeq, qryStart, h, forRow);
    WindowPoints(forRow, refStart, refLen, fwd[1..]);
  }

  /** The reverse pass of section 3 of HirschbergFun, over the `rest`
    * query bases from qryStart: revRow holds the reverse row back before
    * its gap column revGap. */
  method BackHalf(alnSet: AlnSet, ghost g: Params,
                  refSeq: seq<uchar>, refStart: nat, refLen: nat,
                  qrySeq: seq<uchar>, qryStart: nat, rest: nat, revRow: array<int>)
    returns (revGap: int, ghost back: seq<int>)
    requires ParamsMatch(g, alnSet) && IsIndexSeq(refSeq) && IsIndexSeq(qrySeq)
    requires refLen >= 2 && refStart + refLen <= |refSeq|
    requires qryStart >= 1 && qryStart + rest <= |qrySeq|
    requires refStart + refLen <= revRow.Length
    modifies revRow
    ensures back == BackRow(g, refSeq[refStart..refStart + refLen], qrySeq[qryStart..qryStart + rest])
    ensures |back| == refLen + 1 && revGap == back[refLen]
    ensures forall k :: refStart <= k < refStart + refLen ==> revRow[k] == back[k - refStart]
  {
    back := BackRow(g, refSeq[refStart..refStart + refLen], qrySeq[qryStart..qryStart + rest]);
    revGap := ScoreHirschRevNoGap(alnSet, g, refSeq, refStart, refLen, qrySeq, qryStart, rest, revRow);
    WindowPoints(revRow, refStart, refLen, back[..refLen]);
  }

  /** Section 3 of HirschbergFun: the forward pass over the first half of
    * the query window and the reverse pass over the second half. forRow is
    * left holding the forward row fwd past its gap column forGap, revRow
    * the reverse row back before its gap column revGap, and the best cut
    * of their sums is Cut. */
  method ScorePasses(alnSet: AlnSet, ghost g: Params,
                     refSeq: seq<uchar>, refStart: nat, refLen: nat,
                     qrySeq: seq<uchar>, qryStart: nat, qryLen: nat,
                     forRow: array<int>, revRow: array<int>)
    returns (forGap: int, revGap: int, ghost fwd: seq<int>, ghost back: seq<int>)
    requires ParamsMatch(g, alnSet) && IsIndexSeq(refSeq) && IsIndexSeq(qrySeq)
    requires refLen >= 2 && qryLen >= 2
    requires refStart + refLen <= |refSeq| && qryStart + qryLen <= |qrySeq|
    requires refStart + refLen <= forRow.Length && refStart + refLen <= revRow.Length && forRow != revRow
    modifies forRow, revRow
    ensures |fwd| == refLen + 1 && |back| == refLen + 1
    ensures forGap == fwd[0] && forall k :: refStart <= k < refStart + refLen ==> forRow[k] == fwd[k - refStart + 1]
    ensures revGap == back[refLen] && forall k :: refStart <= k < refStart + refLen ==> revRow[k] == back[k - refStart]
    ensures MidPoint(SplitScores(fwd, back)) == Cut(g, refSeq, refStart, refLen, qrySeq, qryStart, qryLen)
  {
    var h := qryLen / 2;
    forGap, fwd := ForwardHalf(alnSet, g, refSeq, refStart, refLen, qrySeq, qryStart, h, forRow);
    revGap, back := BackHalf(alnSet, g, refSeq, refStart, refLen, qrySeq, qryStart + h, qryLen - h, revRow);
    CutOfRows(g, refSeq, refStart, refLen, qrySeq, qryStart, qryLen);
  }

  /** Sections 3 and 4 of HirschbergFun: the two scoring passes over the
    * query halves and the cut they give. */
  method ScoreSplit(alnSet: AlnSet, ghost g: Params,
                    refSeq: seq<uchar>, refStart: nat, refLen: nat,
                    qrySeq: seq<uchar>, qryStart: nat, qryLen: nat,
                    forRow: array<int>, revRow: array<int>)
    returns (mid: nat)
    requires ParamsMatch(g, alnSet) && IsIndexSeq(refSeq) && IsIndexSeq(qrySeq)
    requires refLen >= 2 && qryLen >= 2
    requires refStart + refLen <= |refSeq| && qryStart + qryLen <= |qrySeq|
    requires refStart + refLen <= forRow.Length && refStart + refLen <= revRow.Length && forRow != revRow
    modifies forRow, revRow
    ensures mid == Cut(g, refSeq, refStart, refLen, qrySeq, qryStart, qryLen)
  {
    var forGap, revGap, fwd, back := ScorePasses(alnSet, g, refSeq, refStart, refLen, qrySeq, qryStart, qryLen, forRow, revRow);
    mid := FindMidPoint(forRow, revRow, refStart, refLen, forGap, revGap, fwd, back, SplitScores(fwd, back));
  }

  /** The cut read off the two rows the scoring passes leave. */
  lemma CutOfRows(g: Params, refSeq: seq<uchar>, refStart: nat, refLen: nat,
                  qrySeq: seq<uchar>, qryStart: nat, qryLen: nat)
    requires IsTable(g.table) && IsIndexSeq(refSeq) && IsIndexSeq(qrySeq)
    requires refLen >= 1 && refStart + refLen <= |refSeq| && qryStart + qryLen <= |qrySeq|
    ensures var ref := refSeq[refStart..refStart + refLen];
            var h := qryLen / 2;
            Cut(g, refSeq, refStart, refLen, qrySeq, qryStart, qryLen)
              == MidPoint(SplitScores(ForRow(g, ref, qrySeq[qryStart..qryStart + h]),
                                      BackRow(g, ref, qrySeq[qryStart + h..qryStart + h + (qryLen - h)])))
  {
  }

  /** HirschbergFun: writes the alignment of refSeq[refStart..refStart +
    * refLen) and qrySeq[qryStart..qryStart + qryLen) into the same windows
    * of refAln and qryAln and nothing else there; forRow and revRow are
    * scratch. The alignment is Hirsch under any rules that agree with Cut
    * and Place, HirschCuts and HirschPlaces among them. */
  method HirschbergFun(alnSet: AlnSet, ghost g: Params,
                       refSeq: seq<uchar>, refStart: nat, refLen: nat,
                       qrySeq: seq<uchar>, qryStart: nat, qryLen: nat,
                       forRow: array<int>, revRow: array<int>, refAln: array<int>, qryAln: array<int>,
                       ghost cut: CutRule, ghost place: PlaceRule)
    requires ParamsMatch(g, alnSet) && IsIndexSeq(refSeq) && IsIndexSeq(qrySeq)
    requires CutsWithin(cut) && PlacesWithin(place) && Follows(g, refSeq, qrySeq, cut, place)
    requires refStart + refLen <= |refSeq| && qryStart + qryLen <= |qrySeq|
    requires refStart + refLen <= forRow.Length && refStart + refLen <= revRow.Length
    requires refStart + refLen <= refAln.Length && qryStart + qryLen <= qryAln.Length
    requires forRow != revRow && forRow != refAln && forRow != qryAln
    requires revRow != refAln && revRow != qryAln && refAln != qryAln
    modifies forRow, revRow, refAln, qryAln
    ensures var a := Hirsch(cut, place, Window(refStart, refLen, qryStart, qryLen));
            Part(refAln[..], refStart, refLen) == a.refAln && Part(qryAln[..], qryStart, qryLen) == a.qryAln
    ensures forall k :: 0 <= k < refAln.Length && !(refStart <= k < refStart + refLen) ==> refAln[k] == old(refAln[k])
    ensures forall k :: 0 <= k < qryAln.Length && !(qryStart <= k < qryStart + qryLen) ==> qryAln[k] == old(qryAln[k])
    decreases qryLen, 3
  {
    if refLen <= 1 || qryLen <= 1 {
      HirschLeaf(alnSet, g, refSeq, refStart, refLen, qrySeq, qryStart, qryLen, refAln, qryAln, cut, place);
    } else {
      HirschSplit(alnSet, g, refSeq, refStart, refLen, qrySeq, qryStart, qryLen, forRow, revRow, refAln, qryAln, cut, place);
    }
  }

  /** Section 2 of HirschbergFun: a window that is empty or holds one base
    * is aligned directly, with gaps or by positionSingleBase. */
  method HirschLeaf(alnSet: AlnSet, ghost g: Params,
                    refSeq: seq<uchar>, refStart: nat, refLen: nat,
                    qrySeq: seq<uchar>, qryStart: nat, qryLen: nat,
                    refAln: array<int>, qryAln: array<int>,
                    ghost cut: CutRule, ghost place: PlaceRule)
    requires ParamsMatch(g, alnSet) && IsIndexSeq(refSeq) && IsIndexSeq(qrySeq)
    requires CutsWithin(cut) && PlacesWithin(place) && Follows(g, refSeq, qrySeq, cut, place)
    requires refStart + refLen <= |refSeq| && qryStart + qryLen <= |qrySeq|
    requires refStart + refLen <= refAln.Length && qryStart + qryLen <= qryAln.Length && refAln != qryAln
    requires refLen <= 1 || qryLen <= 1
    modifies refAln, qryAln
    ensures var a := Hirsch(cut, place, Window(refStart, refLen, qryStart, qryLen));
            Part(refAln[..], refStart, refLen) == a.refAln && Part(qryAln[..], qryStart, qryLen) == a.qryAln
    ensures forall k :: 0 <= k < refAln.Length && !(refStart <= k < refStart + refLen) ==> refAln[k] == old(refAln[k])
    ensures forall k :: 0 <= k < qryAln.Length && !(qryStart <= k < qryStart + qryLen) ==> qryAln[k] == old(qryAln[k])
  {
    if refLen == 0 {
      FillGaps(qryAln, qryStart, qryLen);
    } else if qryLen == 0 {
      FillGaps(refAln, refStart, refLen);
    } else {
      HirschLoneBase(alnSet, g, refSeq, refStart, refLen, qrySeq, qryStart, qryLen, refAln, qryAln, cut, place);
    }
  }

  /** The lone-base cases of section 2: one window holds a single base,
    * which is paired directly or placed by positionSingleBase. */
  method HirschLoneBase(alnSet: AlnSet, ghost g: Params,
                        refSeq: seq<uchar>, refStart: nat, refLen: nat,
                        qrySeq: seq<uchar>, qryStart: nat, qryLen: nat,
                        refAln: array<int>, qryAln: array<int>,
                        ghost cut: CutRule, ghost place: PlaceRule)
    requires ParamsMatch(g, alnSet) && IsIndexSeq(refSeq) && IsIndexSeq(qrySeq)
    requires CutsWithin(cut) && PlacesWithin(place) && Follows(g, refSeq, qrySeq, cut, place)
    requires refStart + refLen <= |refSeq| && qryStart + qryLen <= |qrySeq|
    requires refStart + refLen <= refAln.Length && qryStart + qryLen <= qryAln.Length && refAln != qryAln
    requires 1 <= refLen && 1 <= qryLen && (refLen == 1 || qryLen == 1)
    modifies refAln, qryAln
    ensures var a := Hirsch(cut, place, Window(refStart, refLen, qryStart, qryLen));
            Part(refAln[..], refStart, refLen) == a.refAln && Part(qryAln[..], qryStart, qryLen) == a.qryAln
    ensures forall k :: 0 <= k < refAln.Length && !(refStart <= k < refStart + refLen) ==> refAln[k] == old(refAln[k])
    ensures forall k :: 0 <= k < qryAln.Length && !(qryStart <= k < qryStart + qryLen) ==> qryAln[k] == old(qryAln[k])
  {
    ghost var w := Window(refStart, refLen, qryStart, qryLen);
    if refLen == 1 {
      if qryLen == 1 {
        qryAln[qryStart] := SnpFlag;
        refAln[refStart] := SnpFlag;
        return;
      }
      PositionSingleBase(alnSet, g, refSeq[refStart], refStart, qrySeq, qryStart, qryLen, refAln, qryAln);
      assert place(w) == Place(g, refSeq, refStart, refLen, qrySeq, qryStart, qryLen);
      return;
    }
    PositionSingleBase(alnSet, g, qrySeq[qryStart], qryStart, refSeq, refStart, refLen, qryAln, refAln);
    assert place(w) == Place(g, refSeq, refStart, refLen, qrySeq, qryStart, qryLen);
  }

  /** Sections 3 to 5 of HirschbergFun: both windows hold two bases or
    * more, so the reference is cut where the scores of the query halves
    * peak and each pair of halves is aligned in turn. */
  method HirschSplit(alnSet: AlnSet, ghost g: Params,
                       refSeq: seq<uchar>, refStart: nat, refLen: nat,
                       qrySeq: seq<uchar>, qryStart: nat, qryLen: nat,
                       forRow: array<int>, revRow: array<int>, refAln: array<int>, qryAln: array<int>,
                       ghost cut: CutRule, ghost place: PlaceRule)
    requires ParamsMatch(g, alnSet) && IsIndexSeq(refSeq) && IsIndexSeq(qrySeq)
    requires CutsWithin(cut) && PlacesWithin(place) && Follows(g, refSeq, qrySeq, cut, place)
    requires refStart + refLen <= |refSeq| && qryStart + qryLen <= |qrySeq|
    requires refStart + refLen <= forRow.Length && refStart + refLen <= revRow.Length
    requires refStart + refLen <= refAln.Length && qryStart + qryLen <= qryAln.Length
    requires forRow != revRow && forRow != refAln && forRow != qryAln
    requires revRow != refAln && revRow != qryAln && refAln != qryAln
    requires refLen >= 2 && qryLen >= 2
    modifies forRow, revRow, refAln, qryAln
    ensures var a := Hirsch(cut, place, Window(refStart, refLen, qryStart, qryLen));
            Part(refAln[..], refStart, refLen) == a.refAln && Part(qryAln[..], qryStart, qryLen) == a.qryAln
    ensures forall k :: 0 <= k < refAln.Length && !(refStart <= k < refStart + refLen) ==> refAln[k] == old(refAln[k])
    ensures forall k :: 0 <= k < qryAln.Length && !(qryStart <= k < qryStart + qryLen) ==> qryAln[k] == old(qryAln[k])
    decreases qryLen, 2
  {
    var mid := ScoreSplit(alnSet, g, refSeq, refStart, refLen, qrySeq, qryStart, qryLen, forRow, revRow);
    assert HirschCuts(g, refSeq, qrySeq)(Window(refStart, refLen, qryStart, qryLen)) == mid;
    HirschHalves(alnSet, g, refSeq, refStart, refLen, qrySeq, qryStart, qryLen, mid, forRow, revRow, refAln, qryAln, cut, place);
  }

  /** Section 5 of HirschbergFun: with the reference cut at `mid`, the
    * first halves are aligned, then the second halves. */
  method HirschHalves(alnSet: AlnSet, ghost g: Params,
                      refSeq: seq<uchar>, refStart: nat, refLen: nat,
                      qrySeq: seq<uchar>, qryStart: nat, qryLen: nat, mid: nat,
                      forRow: array<int>, revRow: array<int>, refAln: array<int>, qryAln: array<int>,
                      ghost cut: CutRule, ghost place: PlaceRule)
    requires ParamsMatch(g, alnSet) && IsIndexSeq(refSeq) && IsIndexSeq(qrySeq)
    requires CutsWithin(cut) && PlacesWithin(place) && Follows(g, refSeq, qrySeq, cut, place)
    requires refStart + refLen <= |refSeq| && qryStart + qryLen <= |qrySeq|
    requires refStart + refLen <= forRow.Length && refStart + refLen <= revRow.Length
    requires refStart + refLen <= refAln.Length && qryStart + qryLen <= qryAln.Length
    requires forRow != revRow && forRow != refAln && forRow != qryAln
    requires revRow != refAln && revRow != qryAln && refAln != qryAln
    requires refLen >= 2 && qryLen >= 2
    requires mid == cut(Window(refStart, refLen, qryStart, qryLen))
    modifies forRow, revRow, refAln, qryAln
    ensures var a := Hirsch(cut, place, Window(refStart, refLen, qryStart, qryLen));
            Part(refAln[..], refStart, refLen) == a.refAln && Part(qryAln[..], qryStart, qryLen) == a.qryAln
    ensures forall k :: 0 <= k < refAln.Length && !(refStart <= k < refStart + refLen) ==> refAln[k] == old(refAln[k])
    ensures forall k :: 0 <= k < qryAln.Length && !(qryStart <= k < qryStart + qryLen) ==> qryAln[k] == old(qryAln[k])
    decreases qryLen, 1
  {
    var win := Window(refStart, refLen, qryStart, qryLen);
    var lw := LeftOf(win, mid);
    HirschbergFun(alnSet, g, refSeq, lw.refStart, lw.refLen, qrySeq, lw.qryStart, lw.qryLen,
                  forRow, revRow, refAln, qryAln, cut, place);
    HirschSecond(alnSet, g, refSeq, refStart, refLen, qrySeq, qryStart, qryLen, mid,
                 forRow, revRow, refAln, qryAln, cut, place, lw);
  }

  /** The second halves of section 5: once the first windows `lw` hold
    * their alignment, aligning the second windows completes the whole. */
  method HirschSecond(alnSet: AlnSet, ghost g: Params,
                      refSeq: seq<uchar>, refStart: nat, refLen: nat,
                      qrySeq: seq<uchar>, qryStart: nat, qryLen: nat, mid: nat,
                      forRow: array<int>, revRow: array<int>, refAln: array<int>, qryAln: array<int>,
                      ghost cut: CutRule, ghost place: PlaceRule, ghost lw: Window)
    requires ParamsMatch(g, alnSet) && IsIndexSeq(refSeq) && IsIndexSeq(qrySeq)
    requires CutsWithin(cut) && PlacesWithin(place) && Follows(g, refSeq, qrySeq, cut, place)
    requires refStart + refLen <= |refSeq| && qryStart + qryLen <= |qrySeq|
    requires refStart + refLen <= forRow.Length && refStart + refLen <= revRow.Length
    requires refStart + refLen <= refAln.Length && qryStart + qryLen <= qryAln.Length
    requires forRow != revRow && forRow != refAln && forRow != qryAln
    requires revRow != refAln && revRow != qryAln && refAln != qryAln
    requires refLen >= 2 && qryLen >= 2
    requires mid == cut(Window(refStart, refLen, qryStart, qryLen))
    requires lw == LeftOf(Window(refStart, refLen, qryStart, qryLen), mid)
    requires var a := Hirsch(cut, place, Window(lw.refStart, lw.refLen, lw.qryStart, lw.qryLen));
             Part(refAln[..], lw.refStart, lw.refLen) == a.refAln && Part(qryAln[..], lw.qryStart, lw.qryLen) == a.qryAln
    modifies forRow, revRow, refAln, qryAln
    ensures var a := Hirsch(cut, place, Window(refStart, refLen, qryStart, qryLen));
            Part(refAln[..], refStart, refLen) == a.refAln && Part(qryAln[..], qryStart, qryLen) == a.qryAln
    ensures forall k :: 0 <= k < refAln.Length && !(refStart <= k < refStart + refLen) ==> refAln[k] == old(refAln[k])
    ensures forall k :: 0 <= k < qryAln.Length && !(qryStart <= k < qryStart + qryLen) ==> qryAln[k] == old(qryAln[k])
    decreases qryLen, 0
  {
    var win := Window(refStart, refLen, qryStart, qryLen);
    var rw := RightOf(win, mid);
    ghost var refMid := refAln[..];
    ghost var qryMid := qryAln[..];
    HirschbergFun(alnSet, g, refSeq, rw.refStart, rw.refLen, qrySeq, rw.qryStart, rw.qryLen,
                  forRow, revRow, refAln, qryAln, cut, place);
    JoinHalves(cut, place, win, mid, lw, rw, refMid, refAln[..], qryMid, qryAln[..]);
  }

  /** Once the first windows hold their
    * alignment (in `refBefore` and `qryBefore`) and the second windows
    * theirs, with nothing else changed, the whole windows hold the
    * alignment of `w`. */
  lemma JoinHalves(cut: CutRule, place: PlaceRule, w: Window, mid: nat, lw: Window, rw: Window,
                   refBefore: seq<int>, refAfter: seq<int>, qryBefore: seq<int>, qryAfter: seq<int>)
    requires CutsWithin(cut) && PlacesWithin(place) && w.refLen >= 2 && w.qryLen >= 2 && mid == cut(w)
    requires mid <= w.refLen && lw == LeftOf(w, mid) && rw == RightOf(w, mid)
    requires |refAfter| == |refBefore| && w.refStart + w.refLen <= |refAfter|
    requires |qryAfter| == |qryBefore| && w.qryStart + w.qryLen <= |qryAfter|
    requires var a := Hirsch(cut, place, Window(lw.refStart, lw.refLen, lw.qryStart, lw.qryLen));
             Part(refBefore, lw.refStart, lw.refLen) == a.refAln && Part(qryBefore, lw.qryStart, lw.qryLen) == a.qryAln
    requires var a := Hirsch(cut, place, Window(rw.refStart, rw.refLen, rw.qryStart, rw.qryLen));
             Part(refAfter, rw.refStart, rw.refLen) == a.refAln && Part(qryAfter, rw.qryStart, rw.qryLen) == a.qryAln
    requires forall k :: 0 <= k < |refAfter| && !(rw.refStart <= k < rw.refStart + rw.refLen) ==> refAfter[k] == refBefore[k]
    requires forall k :: 0 <= k < |qryAfter| && !(rw.qryStart <= k < rw.qryStart + rw.qryLen) ==> qryAfter[k] == qryBefore[k]
    ensures var a := Hirsch(cut, place, Window(w.refStart, w.refLen, w.qryStart, w.qryLen));
            Part(refAfter, w.refStart, w.refLen) == a.refAln && Part(qryAfter, w.qryStart, w.qryLen) == a.qryAln
  {
    assert Window(lw.refStart, lw.refLen, lw.qryStart, lw.qryLen) == lw;
    assert Window(rw.refStart, rw.refLen, rw.qryStart, rw.qryLen) == rw;
    assert Window(w.refStart, w.refLen, w.qryStart, w.qryLen) == w;
    var left, right := Hirsch(cut, place, lw), Hirsch(cut, place, rw);
    JoinWindows(refAfter, refBefore, w.refStart, mid, w.refLen, rw.refStart, rw.refLen, left.refAln, right.refAln);
    JoinWindows(qryAfter, qryBefore, w.qryStart, lw.qryLen, w.qryLen, rw.qryStart, rw.qryLen, left.qryAln, right.qryAln);
    HirschSplits(cut, place, w);
  }

  /** One level of the recursion: the alignment of the two windows is the
    * first windows' alignment followed by the second windows'. */
  lemma HirschSplits(cut: CutRule, place: PlaceRule, w: Window)
    requires CutsWithin(cut) && PlacesWithin(place) && w.refLen >= 2 && w.qryLen >= 2
    ensures var mid := cut(w);
            var left := Hirsch(cut, place, LeftOf(w, mid));
            var right := Hirsch(cut, place, RightOf(w, mid));
            var a := Hirsch(cut, place, w);
            a.refAln == left.refAln + right.refAln && a.qryAln == left.qryAln + right.qryAln
  {
  }

  /** Two adjacent windows make up the window they cover: the left one,
    * [start, start + cut), kept from `before`, and the right one, [rest,
    * rest + restLen), written since. */
  lemma JoinWindows(after: seq<int>, before: seq<int>, start: nat, cut: nat, len: nat,
                    rest: nat, restLen: nat, left: seq<int>, right: seq<int>)
    requires |after| == |before| && start + len <= |after| && cut <= len
    requires rest == start + cut && restLen == len - cut
    requires Part(before, start, cut) == left
    requires forall k :: 0 <= k < |after| && !(rest <= k < rest + restLen) ==> after[k] == before[k]
    requires Part(after, rest, restLen) == right
    ensures Part(after, start, len) == left + right
  {
    assert after[start..start + len] == after[start..rest] + after[rest..rest + restLen];
    assert after[start..rest] == before[start..start + cut];
  }

  // ---------------------------------------------------------------------------
  // Hirschberg: the entry point
  // ---------------------------------------------------------------------------

  /** What Hirschberg hands hirschToAlnST: the flags of the Hirschberg
    * alignment of the reference window refOffset..refEndAln against the
    * query window qryOffset..qryEndAln (both ends included), the bases of
    * the two windows and the match table. */
  ghost function HirschbergWalk(alnSet: AlnSet, g: Params, refSeq: seq<uchar>, refOffset: nat, refEndAln: nat,
                                qrySeq: seq<uchar>, qryOffset: nat, qryEndAln: nat): (c: Walk)
    reads alnSet, alnSet.matchMatrix, alnSet.scoreMatrix
    requires ParamsMatch(g, alnSet) && IsIndexSeq(refSeq) && IsIndexSeq(qrySeq)
    requires refOffset <= refEndAln < |refSeq| && qryOffset <= qryEndAln < |qrySeq|
    ensures Paired(c)
    ensures |c.rf| == refEndAln - refOffset + 1 && |c.qf| == qryEndAln - qryOffset + 1
    ensures c.refOff == refOffset && c.qryOff == qryOffset
  {
    var refWin, qryWin := refSeq[refOffset..refEndAln + 1], qrySeq[qryOffset..qryEndAln + 1];
    var a := Hirsch(HirschCuts(g, refWin, qryWin), HirschPlaces(g, refWin, qryWin),
                    Window(0, |refWin|, 0, |qryWin|));
    Walk(a.refAln, a.qryAln, refWin, qryWin, refOffset, qryOffset, alnSet.MatchRows())
  }

  /** The flag arrays HirschbergFun filled over the two windows, closed by
    * the calloc'd 0 after them, are what hirschToAlnST reads. */
  lemma HirschbergReads(alnSet: AlnSet, g: Params, refSeq: seq<uchar>, refOffset: nat, refEndAln: nat,
                        qrySeq: seq<uchar>, qryOffset: nat, qryEndAln: nat,
                        refWin: seq<uchar>, qryWin: seq<uchar>, a: Aln, refAln: array<int>, qryAln: array<int>)
    requires ParamsMatch(g, alnSet) && IsIndexSeq(refSeq) && IsIndexSeq(qrySeq)
    requires refOffset <= refEndAln < |refSeq| && qryOffset <= qryEndAln < |qrySeq|
    requires refWin == refSeq[refOffset..refEndAln + 1] && qryWin == qrySeq[qryOffset..qryEndAln + 1]
    requires IsIndexSeq(refWin) && IsIndexSeq(qryWin)
    requires a == Hirsch(HirschCuts(g, refWin, qryWin), HirschPlaces(g, refWin, qryWin),
                         Window(0, |refWin|, 0, |qryWin|))
    requires refAln.Length == |refWin| + 1 && qryAln.Length == |qryWin| + 1
    requires refAln[|refWin|] == EndAlnFlag && qryAln[|qryWin|] == EndAlnFlag
    requires Part(refAln[..], 0, |refWin|) == a.refAln && Part(qryAln[..], 0, |qryWin|) == a.qryAln
    ensures Reads(HirschbergWalk(alnSet, g, refSeq, refOffset, refEndAln, qrySeq, qryOffset, qryEndAln),
                  alnSet, refSeq, refOffset, qrySeq, qryOffset, refAln, qryAln)
  {
    ClosedArray(refAln, a.refAln);
    ClosedArray(qryAln, a.qryAln);
  }

  /** An array one longer than `s` that holds `s` and then the end flag. */
  lemma ClosedArray(aln: array<int>, s: seq<int>)
    requires aln.Length == |s| + 1 && Part(aln[..], 0, |s|) == s && aln[|s|] == EndAlnFlag
    ensures aln[..] == s + [EndAlnFlag]
  {
    assert aln[..] == aln[..|s|] + [aln[|s|]];
  }

  /** Hirschberg: aligns the reference window refOffset..refEndAln with the
    * query window qryOffset..qryEndAln and returns the alnStruct
    * hirschToAlnST makes of the flags HirschbergFun leaves, or null when an
    * allocation fails. */
  method Hirschberg(alnSet: AlnSet, ghost g: Params, refSeq: seq<uchar>, refOffset: nat, refEndAln: nat,
                    qrySeq: seq<uchar>, qryOffset: nat, qryEndAln: nat, allocFails: bool)
    returns (a: AlnStruct?)
    requires ParamsMatch(g, alnSet) && IsIndexSeq(refSeq) && IsIndexSeq(qrySeq)
    requires refOffset <= refEndAln < |refSeq| && qryOffset <= qryEndAln < |qrySeq|
    ensures allocFails <==> a == null
    ensures a != null ==>
      && fresh(a) && a.refAln != null && a.qryAln != null && fresh(a.refAln) && fresh(a.qryAln)
      && a.View() == HirschView(HirschbergWalk(alnSet, g, refSeq, refOffset, refEndAln, qrySeq, qryOffset, qryEndAln),
                                |refSeq|, |qrySeq|)
  {
    if allocFails {
      return null;
    }
    var lenRef, lenQry := refEndAln - refOffset + 1, qryEndAln - qryOffset + 1;
    var refAln := new int[lenRef + 1](_ => 0);
    var qryAln := new int[lenQry + 1](_ => 0);
    HirschbergFill(alnSet, g, refSeq, refOffset, refEndAln, qrySeq, qryOffset, qryEndAln, refAln, qryAln);
    ghost var c := HirschbergWalk(alnSet, g, refSeq, refOffset, refEndAln, qrySeq, qryOffset, qryEndAln);
    a := HirschToAlnST(alnSet, refSeq, refOffset, qrySeq, qryOffset, refAln, qryAln, c, false);
  }

  /** The middle of Hirschberg: the two score rows are allocated and
    * HirschbergFun fills the calloc'd flag arrays over the two windows. */
  method HirschbergFill(alnSet: AlnSet, ghost g: Params, refSeq: seq<uchar>, refOffset: nat, refEndAln: nat,
                        qrySeq: seq<uchar>, qryOffset: nat, qryEndAln: nat, refAln: array<int>, qryAln: array<int>)
    requires ParamsMatch(g, alnSet) && IsIndexSeq(refSeq) && IsIndexSeq(qrySeq)
    requires refOffset <= refEndAln < |refSeq| && qryOffset <= qryEndAln < |qrySeq|
    requires refAln != qryAln
    requires refAln.Length == refEndAln - refOffset + 2 && qryAln.Length == qryEndAln - qryOffset + 2
    requires refAln[refAln.Length - 1] == EndAlnFlag && qryAln[qryAln.Length - 1] == EndAlnFlag
    modifies refAln, qryAln
    ensures Reads(HirschbergWalk(alnSet, g, refSeq, refOffset, refEndAln, qrySeq, qryOffset, qryEndAln),
                  alnSet, refSeq, refOffset, qrySeq, qryOffset, refAln, qryAln)
  {
    var refWin, qryWin := refSeq[refOffset..refEndAln + 1], qrySeq[qryOffset..qryEndAln + 1];
    assert refAln.Length == |refWin| + 1 && qryAln.Length == |qryWin| + 1;
    assert refAln[|refWin|] == EndAlnFlag && qryAln[|qryWin|] == EndAlnFlag;
    ghost var a := FillWindows(alnSet, g, refWin, qryWin, refAln, qryAln);
    HirschbergReads(alnSet, g, refSeq, refOffset, refEndAln, qrySeq, qryOffset, qryEndAln, refWin, qryWin, a, refAln, qryAln);
  }

  /** HirschbergFun over the whole of both windows, with the two score rows
    * it needs; `a` is the alignment it writes. */
  method FillWindows(alnSet: AlnSet, ghost g: Params, refWin: seq<uchar>, qryWin: seq<uchar>,
                     refAln: array<int>, qryAln: array<int>) returns (ghost a: Aln)
    requires ParamsMatch(g, alnSet) && IsIndexSeq(refWin) && IsIndexSeq(qryWin)
    requires refAln != qryAln && |refWin| < refAln.Length && |qryWin| < qryAln.Length
    modifies refAln, qryAln
    ensures a == Hirsch(HirschCuts(g, refWin, qryWin), HirschPlaces(g, refWin, qryWin),
                        Window(0, |refWin|, 0, |qryWin|))
    ensures Part(refAln[..], 0, |refWin|) == a.refAln && Part(qryAln[..], 0, |qryWin|) == a.qryAln
    ensures refAln[|refWin|] == old(refAln[|refWin|]) && qryAln[|qryWin|] == old(qryAln[|qryWin|])
  {
    var forRow := new int[|refWin|];
    var revRow := new int[|refWin|];
    HirschRulesFollow(g, refWin, qryWin);
    HirschbergFun(alnSet, g, refWin, 0, |refWin|, qryWin, 0, |qryWin|, forRow, revRow, refAln, qryAln,
                  HirschCuts(g, refWin, qryWin), HirschPlaces(g, refWin, qryWin));
    a := Hirsch(HirschCuts(g, refWin, qryWin), HirschPlaces(g, refWin, qryWin), Window(0, |refWin|, 0, |qryWin|));
  }
}
