/** What altScoreFiltQry (general/sortAndFiltAltAlns.h) keeps: the invariant
  * of its filter loop, FiltInv, is kept by every step, and from it the
  * properties of the slots left behind follow. */
module AltFilt {
  import opened SortAndFilt

  lemma FiltInvInit(refLen: nat, s0: seq<Alt>)
    requires |s0| >= 1 && StartsRise(refLen, s0)
    ensures FiltInv(refLen, s0, s0, 0, 0)
  {
    assert s0[0] in s0;
  }

  /** One step of the filter keeps FiltInv over sorted, well-formed input. */
  lemma FiltStepInv(refLen: nat, s0: seq<Alt>, s: seq<Alt>, p: nat, on: nat)
    requires StartsRise(refLen, s0) && WellFormed(refLen, s0)
    requires FiltInv(refLen, s0, s, p, on) && on < |s0|
    ensures FiltInv(refLen, s0, FiltStep(refLen, s, p, on).0, FiltStep(refLen, s, p, on).1, on + 1)
  {
    if s[on].score == 0 || s[p].score == 0 {
      FiltBlankInv(refLen, s0, s, p, on);
    } else if Qry(refLen, s[on].start) <= Qry(refLen, s[p].end) {
      FiltOverlapInv(refLen, s0, s, p, on);
    } else {
      FiltPastInv(refLen, s0, s, p, on);
    }
  }

  /** The alignment at `on` is blank and skipped, or slot p is blank and
    * takes it. */
  lemma FiltBlankInv(refLen: nat, s0: seq<Alt>, s: seq<Alt>, p: nat, on: nat)
    requires StartsRise(refLen, s0)
    requires FiltInv(refLen, s0, s, p, on) && on < |s0|
    requires s[on].score == 0 || s[p].score == 0
    ensures FiltInv(refLen, s0, FiltStep(refLen, s, p, on).0, FiltStep(refLen, s, p, on).1, on + 1)
  {
    assert s[on] == s0[on];
    if s[on].score == 0 {
      assert FiltStep(refLen, s, p, on) == (s, p);
      FiltInvKeeps(refLen, s0, s, p, on);
    } else {
      assert FiltStep(refLen, s, p, on) == (s[p := s0[on]], p);
      FiltInvReplace(refLen, s0, s, p, on);
    }
  }

  /** The alignment at `on` overlaps slot p on the query: the higher score
    * stays in slot p. */
  lemma FiltOverlapInv(refLen: nat, s0: seq<Alt>, s: seq<Alt>, p: nat, on: nat)
    requires StartsRise(refLen, s0)
    requires FiltInv(refLen, s0, s, p, on) && on < |s0|
    requires s[on].score != 0 && s[p].score != 0
    requires Qry(refLen, s[on].start) <= Qry(refLen, s[p].end)
    ensures FiltInv(refLen, s0, FiltStep(refLen, s, p, on).0, FiltStep(refLen, s, p, on).1, on + 1)
  {
    assert s[on] == s0[on];
    if s[p].score < s[on].score {
      assert FiltStep(refLen, s, p, on) == (s[p := s0[on]], p);
      FiltInvReplace(refLen, s0, s, p, on);
    } else {
      assert FiltStep(refLen, s, p, on) == (s, p);
      FiltInvKeeps(refLen, s0, s, p, on);
    }
  }

  /** The alignment at `on` starts past the end of slot p on the query: it
    * is kept in the next slot; slot p cannot be slot `on`, as an alignment
    * never starts past its own end. */
  lemma FiltPastInv(refLen: nat, s0: seq<Alt>, s: seq<Alt>, p: nat, on: nat)
    requires StartsRise(refLen, s0) && WellFormed(refLen, s0)
    requires FiltInv(refLen, s0, s, p, on) && on < |s0|
    requires s[on].score != 0 && s[p].score != 0
    requires Qry(refLen, s[p].end) < Qry(refLen, s[on].start)
    ensures FiltInv(refLen, s0, FiltStep(refLen, s, p, on).0, FiltStep(refLen, s, p, on).1, on + 1)
  {
    assert s[on] == s0[on] && Spans(refLen, s0[on]);
    if p == on {
      assert false;
    }
    assert FiltStep(refLen, s, p, on) == (s[p + 1 := s0[on]], p + 1);
    assert s[p] in s0;
    var k :| 0 <= k < |s0| && s0[k] == s[p];
    assert Spans(refLen, s0[k]);
    FiltInvAppend(refLen, s0, s, p, on);
  }

  /** The step changes nothing: the alignment at `on` is blank or scores no
    * higher than slot p. */
  lemma FiltInvKeeps(refLen: nat, s0: seq<Alt>, s: seq<Alt>, p: nat, on: nat)
    requires FiltInv(refLen, s0, s, p, on) && on < |s0|
    requires s0[on].score == 0 || (s[p].score != 0 && s[p].score >= s0[on].score)
    ensures FiltInv(refLen, s0, s, p, on + 1)
  {
    assert BlankFirst(s0, s, p, on + 1);
    assert Dominated(s0, s, p, on + 1);
  }

  /** The alignment at `on` takes slot p: the slot is blank, or the
    * alignment overlaps it on the query and scores higher. */
  lemma FiltInvReplace(refLen: nat, s0: seq<Alt>, s: seq<Alt>, p: nat, on: nat)
    requires StartsRise(refLen, s0)
    requires FiltInv(refLen, s0, s, p, on) && on < |s0| && s[on] == s0[on] && s0[on].score != 0
    requires s[p].score == 0 || s[p].score < s0[on].score
    ensures FiltInv(refLen, s0, s[p := s0[on]], p, on + 1)
  {
    var t := s[p := s0[on]];
    assert StartsNoLater(refLen, s[p], s0[on]);
    ReplaceDisjoint(refLen, s, p, s0[on]);
    ReplaceDominated(s0, s, p, on);
    assert Untouched(s0, t, on + 1) && NonzeroBelow(t, p) && BlankFirst(s0, t, p, on + 1);
    assert FromInput(s0, t, p) by {
      assert t[p] == s0[on] && s0[on] in s0;
    }
    assert Leads(refLen, s0, t, p, on + 1);
  }

  lemma ReplaceDisjoint(refLen: nat, s: seq<Alt>, p: nat, x: Alt)
    requires p < |s| && Disjoint(refLen, s, p) && StartsNoLater(refLen, s[p], x)
    ensures Disjoint(refLen, s[p := x], p)
  {
    var t := s[p := x];
    forall i, j | 0 <= i < j <= p
      ensures Apart(refLen, t[i], t[j])
    {
      assert t[i] == s[i] && Apart(refLen, s[i], s[j]);
      if j < p {
        assert t[j] == s[j];
      }
    }
  }

  lemma ReplaceDominated(s0: seq<Alt>, s: seq<Alt>, p: nat, on: nat)
    requires p < |s| && on < |s0| && Dominated(s0, s, p, on) && BlankFirst(s0, s, p, on)
    requires s[p].score == 0 || s[p].score <= s0[on].score
    ensures Dominated(s0, s[p := s0[on]], p, on + 1)
  {
    var t := s[p := s0[on]];
    assert t[p].score <= MaxScore(t, p);
    if s[p].score != 0 {
      var m :| 0 <= m <= p && s[m].score == MaxScore(s, p);
      assert t[m].score <= MaxScore(t, p);
    }
  }

  /** The alignment at `on` starts past the end of slot p on the query and
    * is kept in slot p + 1. */
  lemma FiltInvAppend(refLen: nat, s0: seq<Alt>, s: seq<Alt>, p: nat, on: nat)
    requires StartsRise(refLen, s0)
    requires FiltInv(refLen, s0, s, p, on) && p < on < |s0| && s[on] == s0[on]
    requires s0[on].score != 0 && s[p].score != 0
    requires Spans(refLen, s[p]) && Apart(refLen, s[p], s0[on])
    ensures FiltInv(refLen, s0, s[p + 1 := s0[on]], p + 1, on + 1)
  {
    var t := s[p + 1 := s0[on]];
    AppendDisjoint(refLen, s, p, s0[on]);
    AppendDominated(s0, s, p, on);
    assert Untouched(s0, t, on + 1) && NonzeroBelow(t, p + 1) && BlankFirst(s0, t, p + 1, on + 1);
    assert FromInput(s0, t, p + 1) by {
      assert t[p + 1] == s0[on] && s0[on] in s0;
    }
    assert Leads(refLen, s0, t, p + 1, on + 1);
  }

  lemma AppendDisjoint(refLen: nat, s: seq<Alt>, p: nat, x: Alt)
    requires p + 1 < |s| && Disjoint(refLen, s, p)
    requires Spans(refLen, s[p]) && Apart(refLen, s[p], x)
    ensures Disjoint(refLen, s[p + 1 := x], p + 1)
  {
    var t := s[p + 1 := x];
    forall i, j | 0 <= i < j <= p + 1
      ensures Apart(refLen, t[i], t[j])
    {
      assert t[i] == s[i];
      if j <= p {
        assert t[j] == s[j] && Apart(refLen, s[i], s[j]);
      } else if i < p {
        assert Apart(refLen, s[i], s[p]);
      }
    }
  }

  lemma AppendDominated(s0: seq<Alt>, s: seq<Alt>, p: nat, on: nat)
    requires p + 1 < |s| && on < |s0| && Dominated(s0, s, p, on)
    ensures Dominated(s0, s[p + 1 := s0[on]], p + 1, on + 1)
  {
    var t := s[p + 1 := s0[on]];
    assert t[p + 1].score <= MaxScore(t, p + 1);
    var m :| 0 <= m <= p && s[m].score == MaxScore(s, p);
    assert t[m].score <= MaxScore(t, p + 1);
  }

  /** The filter loop run to the end keeps any invariant every step keeps. */
  lemma {:induction false} FiltFromKeeps(refLen: nat, inv: (seq<Alt>, nat, nat) -> bool, s: seq<Alt>, p: nat, on: nat)
    requires p <= on <= |s| && inv(s, p, on)
    requires forall t: seq<Alt>, q: nat, k: nat :: |t| == |s| && q <= k < |t| && inv(t, q, k) ==>
      inv(FiltStep(refLen, t, q, k).0, FiltStep(refLen, t, q, k).1, k + 1)
    ensures inv(FiltFrom(refLen, s, p, on).0, FiltFrom(refLen, s, p, on).1, |s|)
    decreases |s| - on
  {
    if on < |s| {
      var n := FiltStep(refLen, s, p, on);
      assert FiltFrom(refLen, s, p, on) == FiltFrom(refLen, n.0, n.1, on + 1);
      FiltFromKeeps(refLen, inv, n.0, n.1, on + 1);
    }
  }

  /** Every step of the filter keeps FiltInv over sorted, well-formed
    * slots. */
  lemma FiltStepsKeep(refLen: nat, s0: seq<Alt>)
    requires StartsRise(refLen, s0) && WellFormed(refLen, s0)
    ensures forall t: seq<Alt>, q: nat, k: nat :: |t| == |s0| && q <= k < |t| && FiltInv(refLen, s0, t, q, k) ==>
      FiltInv(refLen, s0, FiltStep(refLen, t, q, k).0, FiltStep(refLen, t, q, k).1, k + 1)
  {
    forall t: seq<Alt>, q: nat, k: nat | |t| == |s0| && q <= k < |t| && FiltInv(refLen, s0, t, q, k)
      ensures FiltInv(refLen, s0, FiltStep(refLen, t, q, k).0, FiltStep(refLen, t, q, k).1, k + 1)
    {
      FiltStepInv(refLen, s0, t, q, k);
    }
  }

  /** Over sorted, well-formed slots, the loop ends in FiltInv. */
  lemma FilterInv(refLen: nat, s0: seq<Alt>)
    requires |s0| >= 1 && StartsRise(refLen, s0) && WellFormed(refLen, s0)
    ensures FiltInv(refLen, s0, FiltFrom(refLen, s0, 0, 0).0, FiltFrom(refLen, s0, 0, 0).1, |s0|)
  {
    var inv := (t: seq<Alt>, q: nat, k: nat) => FiltInv(refLen, s0, t, q, k);
    FiltStepsKeep(refLen, s0);
    FiltInvInit(refLen, s0);
    FiltFromKeeps(refLen, inv, s0, 0, 0);
  }

  /** Where the loop ends, every nonzero input alignment scores no higher
    * than one of slots 0 to p. */
  lemma FinalBest(q: seq<Alt>, t: seq<Alt>, p: nat)
    requires p < |t| && Dominated(q, t, p, |q|)
    ensures forall j :: 0 <= j < |q| && q[j].score != 0 ==> exists i :: 0 <= i <= p && t[i].score >= q[j].score
  {
    var m :| 0 <= m <= p && t[m].score == MaxScore(t, p);
    forall j | 0 <= j < |q| && q[j].score != 0
      ensures exists i :: 0 <= i <= p && t[i].score >= q[j].score
    {
      assert t[m].score >= q[j].score;
    }
  }

  /** Where the filter loop ends over sorted, well-formed slots: slots 0 to
    * p hold input alignments, are blank only when all of the input is, do
    * not overlap on the query, and every nonzero input alignment scores no
    * higher than one of them. */
  lemma LoopEnd(refLen: nat, q: seq<Alt>)
    requires |q| >= 1 && StartsRise(refLen, q) && WellFormed(refLen, q)
    ensures FiltFrom(refLen, q, 0, 0).1 < |FiltFrom(refLen, q, 0, 0).0| == |q|
    ensures forall i :: 0 <= i <= FiltFrom(refLen, q, 0, 0).1 ==> FiltFrom(refLen, q, 0, 0).0[i] in q
    ensures forall i :: 0 <= i <= FiltFrom(refLen, q, 0, 0).1 && FiltFrom(refLen, q, 0, 0).0[i].score == 0 ==>
              forall j :: 0 <= j < |q| ==> q[j].score == 0
    ensures forall j :: 0 <= j < |q| && q[j].score != 0 ==>
              exists i :: 0 <= i <= FiltFrom(refLen, q, 0, 0).1 && FiltFrom(refLen, q, 0, 0).0[i].score >= q[j].score
    ensures Disjoint(refLen, FiltFrom(refLen, q, 0, 0).0, FiltFrom(refLen, q, 0, 0).1)
  {
    FilterInv(refLen, q);
    FinalBest(q, FiltFrom(refLen, q, 0, 0).0, FiltFrom(refLen, q, 0, 0).1);
  }

  /** Over sorted, well-formed slots the filter keeps at least one slot. */
  lemma FilterKept(refLen: nat, q: seq<Alt>)
    requires |q| >= 1 && StartsRise(refLen, q) && WellFormed(refLen, q)
    ensures 1 <= Filter(refLen, q).1 <= |q|
  {
    LoopEnd(refLen, q);
    FilterHead(refLen, q);
  }

  /** Over sorted, well-formed slots, each kept slot holds an input
    * alignment and is blank only when all input alignments are. */
  lemma FilterKeepsInput(refLen: nat, q: seq<Alt>)
    requires |q| >= 1 && StartsRise(refLen, q) && WellFormed(refLen, q)
    ensures forall i :: 0 <= i < Filter(refLen, q).1 ==> Filter(refLen, q).0[i] in q
    ensures forall i :: 0 <= i < Filter(refLen, q).1 && Filter(refLen, q).0[i].score == 0 ==>
              forall j :: 0 <= j < |q| ==> q[j].score == 0
  {
    LoopEnd(refLen, q);
    FilterHead(refLen, q);
    BlankedSlots(refLen, q, FiltFrom(refLen, q, 0, 0).0, FiltFrom(refLen, q, 0, 0).1, Filter(refLen, q).0, Filter(refLen, q).1);
  }

  /** Over sorted, well-formed slots, every nonzero input alignment scores
    * no higher than some kept slot. */
  lemma FilterKeepsBest(refLen: nat, q: seq<Alt>)
    requires |q| >= 1 && StartsRise(refLen, q) && WellFormed(refLen, q)
    ensures forall j :: 0 <= j < |q| && q[j].score != 0 ==>
              exists i :: 0 <= i < Filter(refLen, q).1 && Filter(refLen, q).0[i].score >= q[j].score
  {
    LoopEnd(refLen, q);
    FilterHead(refLen, q);
    BlankedSlots(refLen, q, FiltFrom(refLen, q, 0, 0).0, FiltFrom(refLen, q, 0, 0).1, Filter(refLen, q).0, Filter(refLen, q).1);
  }

  /** Over sorted, well-formed slots, the kept slots do not overlap on the
    * query. */
  lemma FilterKeepsApart(refLen: nat, q: seq<Alt>)
    requires |q| >= 1 && StartsRise(refLen, q) && WellFormed(refLen, q)
    ensures forall i, j :: 0 <= i < j < Filter(refLen, q).1 ==> Apart(refLen, Filter(refLen, q).0[i], Filter(refLen, q).0[j])
  {
    LoopEnd(refLen, q);
    FilterHead(refLen, q);
    BlankedSlots(refLen, q, FiltFrom(refLen, q, 0, 0).0, FiltFrom(refLen, q, 0, 0).1, Filter(refLen, q).0, Filter(refLen, q).1);
  }

  /** The filter keeps the slots the loop ends with, up to the last one it
    * kept. */
  lemma FilterHead(refLen: nat, q: seq<Alt>)
    requires |q| >= 1 && FiltFrom(refLen, q, 0, 0).1 < |q|
    ensures Filter(refLen, q).1 == FiltFrom(refLen, q, 0, 0).1 + 1
    ensures forall i :: 0 <= i < Filter(refLen, q).1 ==> Filter(refLen, q).0[i] == FiltFrom(refLen, q, 0, 0).0[i]
  {
    var f := FiltFrom(refLen, q, 0, 0);
    BlankKeepsHead(f.0, f.1 + 1, |q|);
  }

  /** The facts of FinalSlots carried over to the slots once those past
    * slot p are blanked. */
  lemma BlankedSlots(refLen: nat, q: seq<Alt>, t: seq<Alt>, p: nat, r: seq<Alt>, kept: nat)
    requires p < |t| == |q| == |r| && kept == p + 1 && forall i :: 0 <= i < kept ==> r[i] == t[i]
    requires forall i :: 0 <= i <= p ==> t[i] in q
    requires forall i :: 0 <= i <= p && t[i].score == 0 ==> forall j :: 0 <= j < |q| ==> q[j].score == 0
    requires forall j :: 0 <= j < |q| && q[j].score != 0 ==> exists i :: 0 <= i <= p && t[i].score >= q[j].score
    requires Disjoint(refLen, t, p)
    ensures forall i :: 0 <= i < kept ==> r[i] in q
    ensures forall i :: 0 <= i < kept && r[i].score == 0 ==> forall j :: 0 <= j < |q| ==> q[j].score == 0
    ensures forall j :: 0 <= j < |q| && q[j].score != 0 ==> exists i :: 0 <= i < kept && r[i].score >= q[j].score
    ensures forall i, j :: 0 <= i < j < kept ==> Apart(refLen, r[i], r[j])
  {
    forall i, j | 0 <= i < j < kept
      ensures Apart(refLen, r[i], r[j])
    {
      assert r[i] == t[i] && r[j] == t[j];
    }
    forall j | 0 <= j < |q| && q[j].score != 0
      ensures exists i :: 0 <= i < kept && r[i].score >= q[j].score
    {
      var i :| 0 <= i <= p && t[i].score >= q[j].score;
      assert r[i] == t[i];
    }
  }

  /** Blanking from `kept` on leaves the slots below `kept` as they were. */
  lemma BlankKeepsHead(s: seq<Alt>, kept: nat, to: nat)
    requires kept <= to == |s|
    ensures forall i :: 0 <= i < kept ==> Blank(s, kept, to)[i] == s[i]
  {
  }

  /** The input of the filter loop: the slots sorted query start lowest
    * first, a reordering of the input that stays well formed. */
  lemma SortedInput(refLen: nat, s: seq<Alt>)
    requires |s| >= 1 && WellFormed(refLen, s)
    ensures multiset(ShellSort(QryLowestFirst(refLen), s, |s|, 0, |s| - 1)) == multiset(s)
    ensures StartsRise(refLen, ShellSort(QryLowestFirst(refLen), s, |s|, 0, |s| - 1))
    ensures WellFormed(refLen, ShellSort(QryLowestFirst(refLen), s, |s|, 0, |s| - 1))
  {
    var q := ShellSort(QryLowestFirst(refLen), s, |s|, 0, |s| - 1);
    SortQryScoresOrders(refLen, s, 0, |s| - 1);
    SortedStartsRise(refLen, q);
    forall i | 0 <= i < |q|
      ensures Spans(refLen, q[i])
    {
      assert q[i] in multiset(s);
      var j :| 0 <= j < |s| && s[j] == q[i];
      assert Spans(refLen, s[j]);
    }
  }

  /** altScoreFiltQry keeps at least one slot; every slot it keeps holds an
    * alignment of the input, and is blank only when every input alignment
    * is: zero scores are skipped. */
  lemma AltScoreFiltSkipsZeros(refLen: nat, s: seq<Alt>)
    requires |s| >= 1 && WellFormed(refLen, s)
    ensures var (r, kept) := AltScoreFilt(refLen, s);
            && 1 <= kept <= |s|
            && (forall i :: 0 <= i < kept ==> r[i] in s)
            && (forall i :: 0 <= i < kept && r[i].score == 0 ==>
                  forall j :: 0 <= j < |s| ==> s[j].score == 0)
  {
    var q := ShellSort(QryLowestFirst(refLen), s, |s|, 0, |s| - 1);
    SortedInput(refLen, s);
    FilterKept(refLen, q);
    FilterKeepsInput(refLen, q);
    var (r, kept) := AltScoreFilt(refLen, s);
    assert (r, kept) == Filter(refLen, q);
    forall i | 0 <= i < kept
      ensures r[i] in s
    {
      assert r[i] in multiset(q);
    }
    forall i | 0 <= i < kept && r[i].score == 0
      ensures forall j :: 0 <= j < |s| ==> s[j].score == 0
    {
      forall j | 0 <= j < |s|
        ensures s[j].score == 0
      {
        assert s[j] in multiset(q);
        var k :| 0 <= k < |q| && q[k] == s[j];
      }
    }
  }

  /** altScoreFiltQry keeps the best of each overlap: every nonzero input
    * alignment scores no higher than some kept slot, and the kept slots
    * follow each other on the query without overlapping. */
  lemma AltScoreFiltKeepsBest(refLen: nat, s: seq<Alt>)
    requires |s| >= 1 && WellFormed(refLen, s)
    ensures var (r, kept) := AltScoreFilt(refLen, s);
            && 1 <= kept <= |s|
            && (forall j :: 0 <= j < |s| && s[j].score != 0 ==>
                  exists i :: 0 <= i < kept && r[i].score >= s[j].score)
            && (forall i, j :: 0 <= i < j < kept ==>
                  Qry(refLen, r[i].end) < Qry(refLen, r[j].start))
  {
    var q := ShellSort(QryLowestFirst(refLen), s, |s|, 0, |s| - 1);
    SortedInput(refLen, s);
    FilterKept(refLen, q);
    FilterKeepsBest(refLen, q);
    FilterKeepsApart(refLen, q);
    var (r, kept) := AltScoreFilt(refLen, s);
    assert (r, kept) == Filter(refLen, q);
    forall j | 0 <= j < |s| && s[j].score != 0
      ensures exists i :: 0 <= i < kept && r[i].score >= s[j].score
    {
      assert s[j] in multiset(q);
      var k :| 0 <= k < |q| && q[k] == s[j];
    }
    forall i, j | 0 <= i < j < kept
      ensures Qry(refLen, r[i].end) < Qry(refLen, r[j].start)
    {
      assert Apart(refLen, r[i], r[j]);
    }
  }

  /** altScoreFiltQry zeroes the scores of every slot past the ones kept. */
  lemma AltScoreFiltBlanksTail(refLen: nat, s: seq<Alt>)
    requires |s| >= 1
    ensures var (r, kept) := AltScoreFilt(refLen, s);
            forall i :: kept <= i < |r| ==> r[i].score == 0
  {
  }
}
